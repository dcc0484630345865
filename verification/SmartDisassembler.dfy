/** The smart disassembler: the passes that turn a memory image into a graph of
    nodes. */
module SmartDisassembly {
  import opened Options
  import opened Z80Image
  import opened Flow
  import opened FlowTheorems
  import opened NodeLayout
  import opened AsmNodes
  import opened Sequences
  import opened Sorting
  import opened Blocks
  import opened NodeLabels
  import opened SubroutineMarks

  function Elems(s: seq<int>): set<int> {
    set x | x in s
  }

  function Range(addr: int, len: nat): (r: set<int>)
    ensures forall b :: b in r <==> addr <= b < addr + len
  {
    if len == 0 then {} else Range(addr, len - 1) + {addr + len - 1}
  }

  /** The label of a list at an address: if there are several, the last one counts. */
  function NameAt(labels: seq<(int, nat)>, a: int): Option<Label> {
    if labels == [] then None
    else if labels[|labels| - 1].0 == a then Some(Named(labels[|labels| - 1].1))
    else NameAt(labels[..|labels| - 1], a)
  }

  lemma NameAtMore(labels: seq<(int, nat)>, addr: int, text: nat)
    ensures forall a :: NameAt(labels + [(addr, text)], a) == if a == addr then Some(Named(text)) else NameAt(labels, a)
  {
    assert (labels + [(addr, text)])[..|labels|] == labels;
  }

  lemma {:induction false} LastNameCounts(labels: seq<(int, nat)>, k: nat)
    requires k < |labels| && forall j :: k < j < |labels| ==> labels[j].0 != labels[k].0
    ensures NameAt(labels, labels[k].0) == Some(Named(labels[k].1))
  {
    if k < |labels| - 1 {
      LastNameCounts(labels[..|labels| - 1], k);
    }
  }

  /** How the address in an instruction is shown. */
  datatype Operand = HexAddress(addr: int) | LabelPlus(l: Label, suffix: int) | LongAddressPlus(addr: int, suffix: int)

  class SmartDisassembler {
    const img: Image

    /** The node map, and its nodes in the order in which they were inserted. */
    var nodes: map<int, AsmNode>
    var nodeOrder: seq<AsmNode>
    var comments: seq<Comment>

    // The memory attributes: the addresses that carry each flag. Flags may also be
    // set behind the end of the memory, by an instruction that crosses it.
    var flowAnalyzed: set<int>
    var code: set<int>
    var codeFirst: set<int>

    // Labels for addresses without node, and the block of every address.
    var otherLabels: map<int, Label>
    const blocks: array<AsmNode?>

    /** The analysed instructions, in order. */
    ghost var trace: seq<Point>

    /** The nodes of the map and the ends of flows that leave it. */
    ghost var all: set<AsmNode>

    /** The labels of the list that have been placed. */
    ghost var placed: seq<(int, nat)>

    constructor (img: Image)
      ensures this.img == img && fresh(blocks) && blocks.Length == MEM_SIZE
    {
      this.img := img;
      nodes, nodeOrder, comments := map[], [], [];
      flowAnalyzed, code, codeFirst := {}, {}, {};
      trace, all, placed := [], {}, [];
      otherLabels := map[];
      blocks := new AsmNode?[MEM_SIZE](_ => null);
    }

    ghost function Progress(): Progress
      reads this`trace, this`nodes, this`comments
    {
      Flow.Progress(trace, nodes.Keys, comments)
    }

    /** The memory attributes say what has been analysed. */
    ghost predicate Matches(p: Progress)
      reads this`codeFirst, this`flowAnalyzed, this`code
    {
      && (forall a :: a in codeFirst <==> p.First(a))
      && (forall a :: a in flowAnalyzed <==> p.Analysed(img, a))
      && code == flowAnalyzed
    }

    ghost predicate AttributesMatch()
      reads this`trace, this`nodes, this`comments, this`codeFirst, this`flowAnalyzed, this`code
    {
      Matches(Progress())
    }

    /** The node map holds nodes under their start addresses. */
    ghost predicate NodeMap()
      reads this`nodes
    {
      forall a :: a in nodes ==>
        && a in img.slotBanks
        && nodes[a].start == a && nodes[a].slot == img.slotBanks[a].slot && !nodes[a].bankBorder
    }

    /** The order contains the nodes of the map, each one once. */
    ghost predicate InsertionOrder()
      reads this`nodes, this`nodeOrder
    {
      && Distinct(nodeOrder)
      && (forall n :: n in nodeOrder ==> n.start in nodes && nodes[n.start] == n)
      && forall a :: a in nodes ==> nodes[a] in nodeOrder
    }

    ghost predicate ShallowNodes()
      reads this`nodeOrder, this`nodes, nodes.Values`length, nodes.Values`isSubroutine, nodes.Values`stop
      reads nodes.Values`instructions, nodes.Values`dataReferences, nodes.Values`branchNodes, nodes.Values`callee
      reads nodes.Values`predecessors, nodes.Values`callers, nodes.Values`nodeLabel, this`placed
    {
      && NodeMap() && NodesAreNamed() && InsertionOrder()
      && forall a :: a in nodes ==> nodes[a].Unfilled() && nodes[a].predecessors == [] && nodes[a].callers == []
    }

    /** The nodes have the labels that have been placed at their addresses, and no others. */
    ghost predicate NodesAreNamed()
      reads this`nodes, nodes.Values`nodeLabel, this`placed
    {
      forall a :: a in nodes ==> nodes[a].nodeLabel == NameAt(placed, a)
    }

    /** The labels that have been placed at other addresses are kept apart. */
    ghost predicate OthersAreNamed(others: map<int, Label>)
      reads this`codeFirst, this`placed
    {
      forall a :: if a in others then a !in codeFirst && NameAt(placed, a) == Some(others[a])
                  else a in codeFirst || NameAt(placed, a) == None
    }

    /** Every label at a CODE_FIRST address has a node. */
    ghost predicate NamesHaveNodes()
      reads this`codeFirst, this`placed, this`nodes
    {
      forall a :: a in codeFirst && NameAt(placed, a).Some? ==> a in nodes
    }

    /** `Memory.getAttributeAt`: nothing is set outside of the 64K. */
    function HasAttribute(flagged: set<int>, a: int): bool {
      0 <= a < MEM_SIZE && a in flagged
    }

    /** `Memory.searchAddrWithAttribute`: the first address in an area that carries the
        flag. */
    method SearchAddrWithAttribute(flagged: set<int>, addr: int, len: nat) returns (found: Option<int>)
      ensures found.Some? ==>
                && addr <= found.value < addr + len && found.value in flagged
                && forall b :: addr <= b < found.value ==> b !in flagged
      ensures found.None? ==> forall b :: addr <= b < addr + len ==> b !in flagged
    {
      for i := 0 to len
        invariant forall b :: addr <= b < addr + i ==> b !in flagged
      {
        if addr + i in flagged {
          return Some(addr + i);
        }
      }
      return None;
    }

    /** Marks the bytes of an instruction as analysed code, its first one as CODE_FIRST. */
    method MarkInstruction(addr: int, len: nat)
      modifies this`flowAnalyzed, this`code, this`codeFirst
      ensures flowAnalyzed == old(flowAnalyzed) + Range(addr, len)
      ensures code == old(code) + Range(addr, len)
      ensures codeFirst == old(codeFirst) + {addr}
    {
      for i := 0 to len
        invariant flowAnalyzed == old(flowAnalyzed) + Range(addr, i)
        invariant code == old(code) + Range(addr, i)
        invariant codeFirst == old(codeFirst)
      {
        flowAnalyzed, code := flowAnalyzed + {addr + i}, code + {addr + i};
      }
      codeFirst := codeFirst + {addr};
    }

    /** Moves a return address behind the bytes that the called routine skips. */
    method SkipReturnAddress(addr: int) returns (r: int)
      requires img.Valid()
      ensures r == img.SkipOver(addr)
    {
      r := addr;
      while r in img.skips && img.skips[r] != 0
        invariant img.SkipOver(r) == img.SkipOver(addr)
        decreases MEM_SIZE - r
      {
        r := (r + img.skips[r]) % MEM_SIZE;
      }
    }

    /** Analyses the instruction at `addr`. It is marked in any case; an overlap
        with code that was analysed before is reported. */
    method VisitInstruction(addr: int, ghost slot: int) returns (overlap: bool)
      requires AttributesMatch()
      modifies this`comments, this`flowAnalyzed, this`code, this`codeFirst, this`trace
      ensures AttributesMatch()
      ensures exists f: set<int> ::
                Visited(img, old(Progress()), Point(addr, slot), f, Progress()) && overlap == (f != {})
      ensures codeFirst == old(codeFirst) + {addr} && old(comments) <= comments
    {
      var op := img.decode(addr);
      var flowAddr := SearchAddrWithAttribute(flowAnalyzed, addr + 1, op.length - 1);
      ghost var p := Progress();
      ghost var f := if flowAddr.Some? then {flowAddr.value} else {};
      MarkInstruction(addr, op.length);
      trace := trace + [Point(addr, slot)];
      overlap := flowAddr.Some?;
      if overlap {
        comments := comments + [Ambiguous(addr, flowAddr.value)];
      }
      assert Visited(img, p, Point(addr, slot), f, Progress());
      VisitGrows(img, p, Point(addr, slot), f, Progress());
    }

    lemma AttributesMean(a: int)
      requires AttributesMatch()
      ensures a in flowAnalyzed <==> Progress().Analysed(img, a)
      ensures a in codeFirst <==> Progress().First(a)
    {
    }

    /** Finds out where the flow goes from the instruction at `lastAddr`: the
        addresses at which nodes have to start, and whether the line goes on. */
    method FindSuccessors(slot: int, lastAddr: int) returns (pushed: seq<int>, goesOn: bool)
      requires img.Valid()
      ensures forall b :: b in pushed <==> img.Queues(Point(lastAddr, slot), b)
      ensures var next := img.Next(lastAddr);
              goesOn <==> img.Falls(Point(lastAddr, slot), Point(next, slot)) && !HasAttribute(flowAnalyzed, next)
    {
      pushed, goesOn := [], false;
      var op := img.decode(lastAddr);
      var addr := lastAddr + op.length;
      var nextAnalyzed := HasAttribute(flowAnalyzed, addr);
      if op.branchAddress {
        // First the natural flow, i.e. the next address.
        if !op.stop {
          addr := SkipReturnAddress(addr);
          if !img.BankBorderPassed(slot, addr) {
            pushed := pushed + [addr];
          }
        }
        // Now the branch.
        if !img.BankBorderPassed(slot, op.value) {
          pushed := pushed + [op.value];
        }
      } else if addr > 0xFFFF {
        // The end of the memory is reached.
      } else if op.ret && op.conditional {
        if !img.BankBorderPassed(slot, addr) {
          pushed := pushed + [addr];
        }
      } else if nextAnalyzed {
        // The code has been analysed before. Everything is fine.
      } else if op.stop {
      } else {
        goesOn := !img.BankBorderPassed(slot, addr);
      }
    }

    /** Follows the straight line from the start of a new node to its end and
        collects the addresses at which other nodes have to start. */
    method FollowFlow(node: AsmNode, queue: seq<int>, ghost starts: set<int>, ghost pending: set<int>)
      returns (queue': seq<int>)
      requires AttributesMatch()
      requires Inv(img, starts, Progress(), {Point(node.start, node.slot)}, pending)
      requires Ready(img, starts, Progress(), Point(node.start, node.slot))
      modifies this`comments, this`flowAnalyzed, this`code, this`codeFirst, this`trace
      ensures AttributesMatch()
      ensures queue <= queue'
      ensures Inv(img, starts, Progress(), {}, pending + Elems(queue'[|queue|..]))
      ensures codeFirst >= old(codeFirst) && old(comments) <= comments
    {
      hide Sound, Fresh, Reported, Rooted, Closed, Explained, Wanted, AttributesMatch;
      var addr := node.start;
      while true
        invariant AttributesMatch()
        invariant Inv(img, starts, Progress(), {Point(addr, node.slot)}, pending)
        invariant Ready(img, starts, Progress(), Point(addr, node.slot))
        invariant codeFirst >= old(codeFirst) && old(comments) <= comments
        decreases MEM_SIZE - addr
      {
        ghost var p, s := Progress(), Point(addr, node.slot);
        ReadyIsNotStopped(img, starts, p, s);
        var overlap := VisitInstruction(addr, node.slot);
        ghost var q := Progress();
        ghost var f: set<int> :| Visited(img, p, s, f, q) && overlap == (f != {});
        if overlap {
          VisitKeepsInv(img, starts, p, s, f, q, {}, pending, {});
          assert (queue + [])[|queue|..] == [];
          assert pending + Elems([]) == pending + {};
          return queue + [];
        }
        var pushed, goesOn := FindSuccessors(node.slot, addr);
        AttributesMean(img.Next(addr));
        if !goesOn {
          LineEnds(starts, p, s, q);
          VisitKeepsInv(img, starts, p, s, {}, q, {}, pending, Elems(pushed));
          assert (queue + pushed)[|queue|..] == pushed;
          return queue + pushed;
        }
        addr := addr + img.decode(addr).length;
        FallIsReady(img, starts, p, s, q, Point(addr, node.slot));
        VisitKeepsInv(img, starts, p, s, {}, q, {Point(addr, node.slot)}, pending, {});
        assert pending + {} == pending;
      }
    }

    lemma LineEnds(starts: set<int>, p: Progress, s: Point, q: Progress)
      requires img.Valid() && Rooted(img, p, {s})
      requires Ready(img, starts, p, s) && Visited(img, p, s, {}, q)
      requires img.Falls(s, Point(img.Next(s.addr), s.slot)) ==> q.Analysed(img, img.Next(s.addr))
      ensures forall t :: img.Falls(s, t) ==> t.addr in q.nodes
    {
      if q.Analysed(img, img.Next(s.addr)) {
        VisitJoins(img, starts, p, s, q, img.Next(s.addr));
      }
    }

    method CreateNodeInMap(addr: int) returns (node: AsmNode)
      requires ShallowNodes() && addr in img.slotBanks && addr !in nodes && NameAt(placed, addr) == None
      modifies this`nodes, this`nodeOrder
      ensures fresh(node) && node.start == addr && node.slot == img.slotBanks[addr].slot
      ensures nodes == old(nodes)[addr := node] && ShallowNodes()
    {
      node := new AsmNode(addr, img.slotBanks[addr].slot, false);
      nodes, nodeOrder := nodes[addr := node], nodeOrder + [node];
    }

    /** Deals with one entry of the worklist: creates the node that it asks for,
        if possible, and follows its flow unless that has been done before. */
    method CreateQueuedNode(addr: int, queue: seq<int>, ghost starts: set<int>, ghost pending: set<int>)
      returns (queue': seq<int>)
      requires AttributesMatch() && ShallowNodes() && placed == []
      requires Inv(img, starts, Progress(), {}, pending + {addr})
      modifies this`nodes, this`nodeOrder, this`comments, this`flowAnalyzed, this`code, this`codeFirst, this`trace
      ensures AttributesMatch() && ShallowNodes()
      ensures queue <= queue'
      ensures Inv(img, starts, Progress(), {}, pending + Elems(queue'[|queue|..]))
      ensures Settled(img, Progress(), addr)
      ensures codeFirst >= old(codeFirst) && old(comments) <= comments
      ensures old(nodes.Keys) <= nodes.Keys <= img.slotBanks.Keys
      ensures queue' == queue || (addr !in old(nodes) && addr in nodes)
      ensures forall a :: a in nodes ==> (a in old(nodes) && nodes[a] == old(nodes)[a]) || fresh(nodes[a])
    {
      hide Inv, Ready, Matches, ShallowNodes;
      queue' := queue;
      assert pending + Elems(queue'[|queue|..]) == pending;
      ghost var p := Progress();
      WaitingIsMapped(img, starts, p, addr, pending);
      AttributesMean(addr);
      NodesAreMapped();
      if addr in nodes {
        SkipKeepsInv(img, starts, p, addr, pending);
        return;
      }
      if HasAttribute(flowAnalyzed, addr) {
        if HasAttribute(codeFirst, addr) {
          var _ := CreateNodeInMap(addr);
          JoinKeepsInv(img, starts, p, addr, Progress(), pending);
        } else {
          // A disassembly at an offset took place.
          comments := comments + [Ambiguous(addr, addr)];
          RefuseKeepsInv(img, starts, p, addr, Progress(), pending);
        }
        MatchesTrace(p, Progress());
        NodesAreMapped();
        return;
      }
      if !HasAttribute(img.assignedBytes, addr) {
        SkipKeepsInv(img, starts, p, addr, pending);
        return;
      }
      var node := CreateNodeInMap(addr);
      MatchesTrace(p, Progress());
      NodesAreMapped();
      GrantKeepsInv(img, starts, p, addr, Progress(), pending);
      queue' := FollowFlow(node, queue, starts, pending);
    }

    lemma NodesAreMapped()
      requires ShallowNodes()
      ensures nodes.Keys <= img.slotBanks.Keys
    {
      assert forall a :: a in nodes.Keys ==> a in nodes && a in img.slotBanks;
    }

    /** Follows the execution path of an address. */
    method CreateNodeForAddress(address64k: int, ghost starts: set<int>)
      requires AttributesMatch() && ShallowNodes() && placed == []
      requires Inv(img, starts, Progress(), {}, {})
      requires address64k in starts && address64k in img.slotBanks
      modifies this`nodes, this`nodeOrder, this`comments, this`flowAnalyzed, this`code, this`codeFirst, this`trace
      ensures AttributesMatch() && ShallowNodes()
      ensures Inv(img, starts, Progress(), {}, {})
      ensures Settled(img, Progress(), address64k)
      ensures codeFirst >= old(codeFirst) && old(comments) <= comments
      ensures forall a :: a in nodes ==> (a in old(nodes) && nodes[a] == old(nodes)[a]) || fresh(nodes[a])
    {
      hide Inv, AttributesMatch, ShallowNodes;
      var queue := [address64k];
      var i := 0;
      RequestKeepsInv(img, starts, Progress(), address64k);
      assert Elems(queue[i..]) == {address64k};
      while i < |queue|
        invariant 0 <= i <= |queue| && |queue| > 0 && queue[0] == address64k
        invariant AttributesMatch() && ShallowNodes()
        invariant Inv(img, starts, Progress(), {}, Elems(queue[i..]))
        invariant i > 0 ==> Settled(img, Progress(), address64k)
        invariant forall a :: a in nodes ==> (a in old(nodes) && nodes[a] == old(nodes)[a]) || fresh(nodes[a])
        invariant codeFirst >= old(codeFirst) && old(comments) <= comments
        decreases img.slotBanks.Keys - nodes.Keys, |queue| - i
      {
        ghost var pending, n, free := Elems(queue[i + 1..]), |queue|, img.slotBanks.Keys - nodes.Keys;
        assert Elems(queue[i..]) == pending + {queue[i]};
        queue := CreateQueuedNode(queue[i], queue, starts, pending);
        assert queue[i] in free && queue[i] in nodes ==> img.slotBanks.Keys - nodes.Keys < free;
        i := i + 1;
        assert Elems(queue[i..]) == pending + Elems(queue[n..]);
      }
      assert Elems(queue[i..]) == {};
    }

    ghost function CodeLayout(): Layout
      reads this`codeFirst, this`nodes
    {
      Layout(img, codeFirst, nodes.Keys)
    }

    /** Returns the address of a prior CODE_FIRST, for an address in the code. */
    method GetAddressForCodeFirst(addr: int) returns (r: int)
      requires AttributesMatch() && addr in code
      ensures r in codeFirst && r <= addr < r + 4
      ensures forall b :: r < b <= addr ==> b !in codeFirst
      ensures CodeLayout().Clean() ==> img.Covers(r, addr)
    {
      ghost var i :| 0 <= i < |trace| && img.Covers(trace[i].addr, addr);
      ghost var u := trace[i].addr;
      assert u in codeFirst;
      r := addr;
      while r !in codeFirst
        invariant u <= r <= addr
        invariant forall b :: r < b <= addr ==> b !in codeFirst
        decreases r - u
      {
        r := r - 1;
      }
      assert CodeLayout().Clean() ==> !img.Inside(u, r);
    }

    /** `m` stands for the address `b` in the links of a node that lies in `slot`: it is
        the node at that address, or else no node of the map. */
    ghost predicate StandsFor(m: AsmNode, slot: int, b: int)
      reads this`nodes
    {
      && m.start == b
      && if b in nodes && !img.BankBorderPassed(slot, b) then m == nodes[b]
         else m !in nodes.Values && m.bankBorder == img.BankBorderPassed(slot, b)
    }

    /** The comment about a link from `origin` to `target`. */
    function LinkComment(slot: int, origin: int, target: int): seq<Comment>
      reads this`nodes
    {
      if img.BankBorderPassed(slot, target) then [DifferentBank(origin, target)]
      else if target in nodes then []
      else if HasAttribute(img.assignedBytes, target) then [Ambiguous(origin, target)]
      else [BranchToUnassigned(origin, target)]
    }

    /** A node that is not part of the map is an end: nothing is known about its inside. */
    ghost predicate MapOrEnd(x: AsmNode)
      reads this`nodes, x`isSubroutine, x`branchNodes, x`callee
    {
      (x.start in nodes && nodes[x.start] == x) || (!x.isSubroutine && x.branchNodes == [] && x.callee == null)
    }

    ghost predicate InMap(x: AsmNode)
      reads this`nodes, this`all
    {
      x in all && x.start in nodes && nodes[x.start] == x
    }

    ghost predicate Graph()
      reads this`nodes, this`all, all`branchNodes, all`predecessors, all`callers, all`callee, all`isSubroutine
    {
      && NodeMap()
      && (forall x {:trigger MapOrEnd(x)} :: x in all ==> MapOrEnd(x))
      && (forall a :: a in nodes ==> nodes[a] in all)
      && MutualLinks(all)
    }

    /** Returns the node at an address, or a new end node that is not part of the
        map when there is no node, or only one in another bank. */
    method GetNodeForFill(originSlot: int, origin: int, target: int) returns (other: AsmNode)
      requires Graph()
      modifies this`comments, this`all
      ensures Graph() && other in all && old(all) <= all && fresh(all - old(all))
      ensures StandsFor(other, originSlot, target)
      ensures comments == old(comments) + LinkComment(originSlot, origin, target)
    {
      var border := img.BankBorderPassed(originSlot, target);
      comments := comments + LinkComment(originSlot, origin, target);
      if !border && target in nodes {
        return nodes[target];
      }
      other := new AsmNode(target, -1, border);
      JoinLinks(all, other);
      all := all + {other};
    }

    ghost function NodeLast(n: AsmNode): int
      reads this`nodes, this`codeFirst
    {
      var t := CodeLayout().Trail(n.start, n.slot);
      t[|t| - 1]
    }

    /** A node with last instruction `last` is linked with its successors. A line that runs
        into another node is linked with that node, even across a bank border. */
    ghost predicate Linked(n: AsmNode, last: int)
      requires img.Valid()
      reads this`nodes, this`codeFirst, n`stop, n`branchNodes, n`callee
    {
      var op := img.decode(last);
      && n.stop == op.stop
      && (if !op.branchAddress && !op.stop && img.Next(last) in nodes then n.branchNodes == [nodes[img.Next(last)]]
          else LinksOf(n.branchNodes, n.slot, CodeLayout().BranchTargets(last, n.slot)))
      && (n.callee != null <==> op.branchAddress && op.call)
      && (n.callee != null ==> StandsFor(n.callee, n.slot, op.value))
    }

    /** What the second pass finds out about a node. */
    ghost predicate Filled(n: AsmNode)
      requires img.Valid()
      reads this`nodes, this`codeFirst, this`code
      reads n`instructions, n`length, n`stop, n`dataReferences, n`branchNodes, n`callee
    {
      var l, t := CodeLayout(), CodeLayout().Trail(n.start, n.slot);
      && n.instructions == l.NodeCodes(t)
      && n.length == img.EndOfLast(NodeLast(n)) - n.start
      && DataReferencesOf(n.dataReferences, l.DataLabels(t))
      && Linked(n, NodeLast(n))
    }

    /** Before the marks are handed on, the nodes with a RET are marked. */
    ghost predicate ReturnIsKnown(n: AsmNode)
      reads this`nodes, this`codeFirst, n`isSubroutine
    {
      n.isSubroutine == Returns(CodeLayout().Trail(n.start, n.slot))
    }

    ghost predicate LinksOf(ms: seq<AsmNode>, slot: int, bs: seq<int>)
      reads this`nodes
    {
      |ms| == |bs| && forall i :: 0 <= i < |bs| ==> StandsFor(ms[i], slot, bs[i])
    }

    /** References into the code were moved to the start of an instruction. */
    ghost predicate DataReferencesOf(refs: seq<int>, values: seq<int>)
      reads this`codeFirst, this`code
    {
      |refs| == |values| && forall i :: 0 <= i < |refs| ==> Adjusted(values[i], refs[i])
    }

    ghost predicate Adjusted(value: int, r: int)
      reads this`codeFirst, this`code
    {
      if HasAttribute(code, value) then
        r in codeFirst && r <= value && forall b :: r < b <= value ==> b !in codeFirst
      else
        r == value
    }

    /** Collects the instruction at `addr` and the data that it refers to. */
    method FillInstruction(node: AsmNode, addr: int, ghost t: seq<int>)
      requires img.Valid() && AttributesMatch()
      requires node.instructions == CodeLayout().Codes(t)
      requires DataReferencesOf(node.dataReferences, CodeLayout().DataLabels(t))
      modifies node`instructions, node`dataReferences
      ensures node.instructions == CodeLayout().Codes(t + [addr])
      ensures DataReferencesOf(node.dataReferences, CodeLayout().DataLabels(t + [addr]))
    {
      var opcode := img.decode(addr);
      assert (t + [addr])[..|t|] == t;
      if opcode.dataLabel {
        var adjAddr := opcode.value;
        if HasAttribute(code, adjAddr) {
          adjAddr := GetAddressForCodeFirst(adjAddr);
        }
        node.dataReferences := node.dataReferences + [adjAddr];
      }
      node.instructions := node.instructions + [opcode];
    }

    /** Adds a pseudo instruction for every skipped byte or word. */
    method FillSkips(node: AsmNode, addr: int) returns (r: int)
      requires img.Valid()
      modifies node`instructions
      ensures r == img.SkipOver(addr)
      ensures node.instructions == old(node.instructions) + CodeLayout().SkipCodes(addr)
    {
      r := addr;
      while r in img.skips && img.skips[r] != 0
        invariant img.SkipOver(r) == img.SkipOver(addr)
        invariant node.instructions + CodeLayout().SkipCodes(r) == old(node.instructions) + CodeLayout().SkipCodes(addr)
        decreases MEM_SIZE - r
      {
        node.instructions := node.instructions + [SkipPseudoOpcode(img.skips[r])];
        r := r + img.skips[r];
      }
    }

    /** Some instruction at these addresses is a RET or RET cc. */
    predicate Returns(t: seq<int>) {
      exists i :: 0 <= i < |t| && img.decode(t[i]).ret && !img.decode(t[i]).branchAddress
    }

    lemma ReturnsPush(t: seq<int>, a: int)
      ensures Returns(t + [a]) <==> Returns(t) || (img.decode(a).ret && !img.decode(a).branchAddress)
    {
      var u := t + [a];
      assert u[|t|] == a;
      assert forall i :: 0 <= i < |t| ==> u[i] == t[i];
    }

    /** The comments about the links of a node whose last instruction is at `last`. */
    function NodeComments(last: int, slot: int): seq<Comment>
      requires img.Valid() && 0 <= last
      reads this`nodes, this`codeFirst
    {
      var l, op, next := Layout(img, codeFirst, nodes.Keys), img.decode(last), img.Next(last);
      if op.branchAddress then
        (if !op.stop && img.EndOfLast(last) < MEM_SIZE then LinkComment(slot, last, img.EndOfLast(last)) else [])
        + LinkComment(slot, last, op.value)
      else if op.stop || next >= MEM_SIZE || next in nodes || l.Overlapped(last) then
        []
      else
        (if SpreadsOverBanks(last) then [OpcodeSpreadsOverBanks(last)] else []) + LinkComment(slot, last, next)
    }

    /** The last byte of the instruction at `last` already lies in a paged slot. */
    predicate SpreadsOverBanks(last: int)
      requires img.Valid() && 0 <= last && img.Next(last) < MEM_SIZE
    {
      var curr, prev := img.slotBanks[img.Next(last)], img.slotBanks[img.Next(last) - 1];
      !curr.singleBank && curr.slot == prev.slot
    }

    /** Makes the node at `target` a successor of `node`. */
    method BranchTo(node: AsmNode, origin: int, target: int)
      requires img.Valid() && Graph() && InMap(node)
      modifies this`comments, this`all, node`branchNodes, all`predecessors
      ensures Graph() && old(all) <= all && fresh(all - old(all))
      ensures |node.branchNodes| == |old(node.branchNodes)| + 1
      ensures node.branchNodes[..|old(node.branchNodes)|] == old(node.branchNodes)
      ensures StandsFor(node.branchNodes[|old(node.branchNodes)|], node.slot, target)
      ensures comments == old(comments) + LinkComment(node.slot, origin, target)
    {
      hide MutualLinks;
      var other := GetNodeForFill(node.slot, origin, target);
      LinkBranch(node, other, all);
    }

    /** Makes the node at `target` the called node of `node`. */
    method CallTo(node: AsmNode, origin: int, target: int)
      requires img.Valid() && Graph() && InMap(node) && node.callee == null
      modifies this`comments, this`all, node`callee, all`callers
      ensures Graph() && old(all) <= all && fresh(all - old(all))
      ensures node.callee != null && StandsFor(node.callee, node.slot, target)
      ensures comments == old(comments) + LinkComment(node.slot, origin, target)
    {
      hide MutualLinks;
      var other := GetNodeForFill(node.slot, origin, target);
      LinkCall(node, other, all);
    }

    /** Links a node with the node at the return address of its last instruction, behind
        the bytes that are skipped. */
    method FillReturn(node: AsmNode, lastAddr: int) returns (addr: int)
      requires img.Valid() && Graph() && InMap(node) && node.branchNodes == []
      modifies this`comments, this`all, node`instructions, node`branchNodes, all`predecessors
      ensures Graph() && old(all) <= all && fresh(all - old(all))
      ensures addr == img.SkipOver(img.Next(lastAddr))
      ensures node.instructions == old(node.instructions) + CodeLayout().SkipCodes(img.Next(lastAddr))
      ensures LinksOf(node.branchNodes, node.slot, if addr < MEM_SIZE then [addr] else [])
      ensures comments == old(comments) + if addr < MEM_SIZE then LinkComment(node.slot, lastAddr, addr) else []
    {
      hide MutualLinks, LinksWithin, StandsFor, LinkComment, Graph;
      addr := FillSkips(node, img.Next(lastAddr));
      if addr < MEM_SIZE {
        BranchTo(node, lastAddr, addr);
      }
    }

    /** Links a node whose last instruction is a branch or call. Returns where the
        node ends. */
    method FillBranch(node: AsmNode, lastAddr: int) returns (addr: int)
      requires img.Valid() && Graph() && InMap(node)
      requires 0 <= lastAddr && img.decode(lastAddr).branchAddress
      requires node.branchNodes == [] && node.callee == null
      modifies this`comments, this`all, node`instructions, node`branchNodes, node`callee, all`predecessors, all`callers
      ensures Graph() && old(all) <= all && fresh(all - old(all))
      ensures addr == img.EndOfLast(lastAddr)
      ensures comments == old(comments) + NodeComments(lastAddr, node.slot)
      ensures node.instructions == old(node.instructions) +
                if img.decode(lastAddr).stop then [] else CodeLayout().SkipCodes(img.Next(lastAddr))
      ensures LinksOf(node.branchNodes, node.slot, CodeLayout().BranchTargets(lastAddr, node.slot))
      ensures if img.decode(lastAddr).call then
                node.callee != null && StandsFor(node.callee, node.slot, img.decode(lastAddr).value)
              else node.callee == null
    {
      hide MutualLinks, LinksWithin, StandsFor, LinkComment, Graph;
      var opcode := img.decode(lastAddr);
      addr := img.Next(lastAddr);
      if !opcode.stop {
        // First the natural flow.
        addr := FillReturn(node, lastAddr);
      }
      // Now the branch.
      if opcode.call {
        CallTo(node, lastAddr, opcode.value);
      } else {
        BranchTo(node, lastAddr, opcode.value);
      }
    }

    /** The line of the node goes on in another bank: links it with an end node. */
    method LeaveBank(node: AsmNode, lastAddr: int)
      requires img.Valid() && Graph() && InMap(node)
      requires 0 <= lastAddr && !img.decode(lastAddr).branchAddress && !img.decode(lastAddr).stop
      requires img.Next(lastAddr) < MEM_SIZE && img.Next(lastAddr) !in nodes && !CodeLayout().Overlapped(lastAddr)
      requires !node.stop && node.branchNodes == [] && node.callee == null
      modifies this`comments, this`all, all`predecessors, node`branchNodes
      ensures Graph() && old(all) <= all && fresh(all - old(all))
      ensures Linked(node, lastAddr) && comments == old(comments) + NodeComments(lastAddr, node.slot)
    {
      hide MutualLinks, LinkComment, StandsFor, LinksWithin, Layout.Overlapped, Linked, NodeComments, Graph;
      // The last instruction was partly already inside the banked slot.
      if SpreadsOverBanks(lastAddr) {
        comments := comments + [OpcodeSpreadsOverBanks(lastAddr)];
      }
      BranchTo(node, lastAddr, img.Next(lastAddr));
      LinkedAcross(node, lastAddr);
    }

    /** A line that goes on in another bank. */
    lemma LinkedAcross(node: AsmNode, lastAddr: int)
      requires img.Valid() && 0 <= lastAddr && !img.decode(lastAddr).branchAddress && !img.decode(lastAddr).stop
      requires img.Next(lastAddr) < MEM_SIZE && img.Next(lastAddr) !in nodes && !CodeLayout().Overlapped(lastAddr)
      requires !node.stop && |node.branchNodes| == 1 && node.callee == null
      requires StandsFor(node.branchNodes[0], node.slot, img.Next(lastAddr))
      ensures Linked(node, lastAddr)
      ensures NodeComments(lastAddr, node.slot) ==
              (if SpreadsOverBanks(lastAddr) then [OpcodeSpreadsOverBanks(lastAddr)] else [])
              + LinkComment(node.slot, lastAddr, img.Next(lastAddr))
    {
      hide LinkComment, StandsFor, Layout.Overlapped;
    }

    /** Looks at what follows an instruction that is no branch. When the node ends there,
        links it with its successor. Returns the next address. */
    method FillLine(node: AsmNode, lastAddr: int) returns (ended: bool, addr: int)
      requires img.Valid() && Graph() && InMap(node)
      requires 0 <= lastAddr < MEM_SIZE && !img.decode(lastAddr).branchAddress
      requires !node.stop && node.branchNodes == [] && node.callee == null
      modifies this`comments, this`all, all`predecessors
      modifies node`isSubroutine, node`stop, node`branchNodes
      ensures Graph() && old(all) <= all && fresh(all - old(all))
      ensures ended == CodeLayout().EndsNode(lastAddr, node.slot) && addr == img.Next(lastAddr)
      ensures node.isSubroutine == (old(node.isSubroutine) || img.decode(lastAddr).ret)
      ensures if ended then Linked(node, lastAddr) && comments == old(comments) + NodeComments(lastAddr, node.slot)
              else !node.stop && node.branchNodes == [] && comments == old(comments) && all == old(all)
    {
      hide MutualLinks, LinkComment, StandsFor, LinksWithin;
      var opcode := img.decode(lastAddr);
      addr := lastAddr + opcode.length;
      if opcode.ret {
        node.isSubroutine := true;
      }
      if opcode.stop {
        node.stop := true;
        return true, addr;
      }
      if addr > 0xFFFF {
        return true, addr;
      }
      if addr in nodes {
        LinkBranch(node, nodes[addr], all);
        return true, addr;
      }
      // Break if the disassembly is ambiguous.
      var flowAddr := SearchAddrWithAttribute(codeFirst, lastAddr + 1, opcode.length - 1);
      if flowAddr.Some? {
        assert img.Inside(lastAddr, flowAddr.value);
        return true, addr;
      }
      if img.BankBorderPassed(node.slot, addr) {
        LeaveBank(node, lastAddr);
        return true, addr;
      }
      return false, addr;
    }

    /** Collects the instruction at `lastAddr`, which follows those at `t`, and looks at what
        comes behind it. When the node ends there, links it with its successors. Returns
        the next address. */
    method FillStep(node: AsmNode, lastAddr: int, ghost t: seq<int>) returns (ended: bool, addr: int)
      requires img.Valid() && AttributesMatch() && Graph() && InMap(node)
      requires 0 <= lastAddr < MEM_SIZE
      requires !node.stop && node.branchNodes == [] && node.callee == null
      requires node.instructions == CodeLayout().Codes(t) && node.isSubroutine == Returns(t)
      requires DataReferencesOf(node.dataReferences, CodeLayout().DataLabels(t))
      modifies this`comments, this`all, all`predecessors, all`callers
      modifies node`instructions, node`dataReferences, node`isSubroutine, node`stop, node`branchNodes, node`callee
      ensures Graph() && old(all) <= all && fresh(all - old(all))
      ensures ended == CodeLayout().EndsNode(lastAddr, node.slot)
      ensures addr == if ended then img.EndOfLast(lastAddr) else img.Next(lastAddr)
      ensures node.isSubroutine == Returns(t + [lastAddr])
      ensures DataReferencesOf(node.dataReferences, CodeLayout().DataLabels(t + [lastAddr]))
      ensures if ended then
                Linked(node, lastAddr) && comments == old(comments) + NodeComments(lastAddr, node.slot)
                && node.instructions == CodeLayout().NodeCodes(t + [lastAddr])
              else
                !node.stop && node.branchNodes == [] && node.callee == null && comments == old(comments)
                && all == old(all)
                && node.instructions == CodeLayout().Codes(t + [lastAddr])
    {
      hide MutualLinks, LinkComment, DataReferencesOf, Returns, AttributesMatch, Layout.DataLabels;
      ReturnsPush(t, lastAddr);
      FillInstruction(node, lastAddr, t);
      if img.decode(lastAddr).branchAddress {
        addr := FillBranch(node, lastAddr);
        ended := true;
        if img.decode(lastAddr).stop {
          node.stop := true;
        }
      } else {
        ended, addr := FillLine(node, lastAddr);
      }
    }

    lemma NoReferencesYet()
      ensures DataReferencesOf([], CodeLayout().DataLabels([]))
    {
    }

    /** Walks over the instructions of a node up to its end, collects them and
        links the node with its successors. Returns where the node ends. */
    method WalkNode(node: AsmNode) returns (addr: int)
      requires img.Valid() && AttributesMatch() && Graph()
      requires node.start in nodes && nodes[node.start] == node && node.Unfilled()
      modifies this`comments, this`all, all`predecessors, all`callers
      modifies node`instructions, node`dataReferences, node`isSubroutine, node`stop, node`branchNodes, node`callee
      ensures Graph() && old(all) <= all && fresh(all - old(all))
      ensures var l, t := CodeLayout(), CodeLayout().Trail(node.start, node.slot);
              && node.instructions == l.NodeCodes(t)
              && addr == img.EndOfLast(NodeLast(node))
              && node.isSubroutine == Returns(t)
              && DataReferencesOf(node.dataReferences, l.DataLabels(t))
      ensures Linked(node, NodeLast(node)) && node.start <= addr
      ensures NodeLast(node) >= 0 && comments == old(comments) + NodeComments(NodeLast(node), node.slot)
    {
      hide MutualLinks, Linked, NodeComments, DataReferencesOf, AttributesMatch, Layout.DataLabels, Layout.EndsNode;
      ghost var l := CodeLayout();
      ghost var t, k := l.Trail(node.start, node.slot), 0;
      addr := node.start;
      NoReferencesYet();
      while true
        invariant Graph() && all == old(all) && comments == old(comments)
        invariant node.start <= addr < MEM_SIZE && k < |t| && addr == t[k]
        invariant node.instructions == l.Codes(t[..k])
        invariant DataReferencesOf(node.dataReferences, l.DataLabels(t[..k]))
        invariant node.isSubroutine == Returns(t[..k])
        invariant !node.stop && node.branchNodes == [] && node.callee == null
        decreases MEM_SIZE - addr
      {
        assert t[..k + 1] == t[..k] + [addr];
        l.TrailStep(node.start, node.slot, k);
        l.GoesOnInMemory(addr, node.slot);
        var ended;
        ended, addr := FillStep(node, addr, t[..k]);
        k := k + 1;
        if ended {
          assert t[..k] == t && k == |t|;
          return;
        }
      }
    }

    /** Fills a node with its instructions and links it with the nodes that its
        last instruction leads to. */
    method FillNode(node: AsmNode)
      requires img.Valid() && AttributesMatch() && Graph()
      requires node.start in nodes && nodes[node.start] == node && node.Unfilled()
      modifies this`comments, this`all, node, all`predecessors, all`callers
      ensures Graph() && old(all) <= all && fresh(all - old(all))
      ensures Filled(node) && ReturnIsKnown(node)
      ensures NodeLast(node) >= 0 && comments == old(comments) + NodeComments(NodeLast(node), node.slot)
      ensures node.nodeLabel == old(node.nodeLabel)
    {
      hide MutualLinks, Linked, NodeComments, DataReferencesOf, Returns;
      var addr := WalkNode(node);
      node.length := addr - node.start;
    }

    /** In a clean layout the second pass only comments on bank borders. */
    lemma CleanComments(n: int)
      requires CodeLayout().Clean() && n in nodes && CodeLayout().Last(n) >= 0
      ensures forall c :: c in NodeComments(CodeLayout().Last(n), CodeLayout().Slot(n)) ==>
                c.DifferentBank? || c.OpcodeSpreadsOverBanks?
    {
      var l := CodeLayout();
      var last, slot := l.Last(n), l.Slot(n);
      assert l.HasTargets(n);
      assert l.LeadsTo(n, img.Next(last)) <==> img.Next(last) in l.BranchTargets(last, slot) ||
                                               (img.decode(last).branchAddress &&
                                                img.Next(last) == img.decode(last).value);
      if img.decode(last).branchAddress {
        assert l.LeadsTo(n, img.decode(last).value);
        assert img.EndOfLast(last) in l.BranchTargets(last, slot) ==> l.LeadsTo(n, img.EndOfLast(last));
      }
    }

    /** The comments about the links of all nodes below `n`. */
    function FillComments(n: nat): seq<Comment>
      requires img.Valid()
      reads this`nodes, this`codeFirst
    {
      if n == 0 then [] else FillComments(n - 1) + CommentsAt(n - 1)
    }

    function CommentsAt(a: nat): seq<Comment>
      requires img.Valid()
      reads this`nodes, this`codeFirst
    {
      var l := Layout(img, codeFirst, nodes.Keys);
      if a in nodes && 0 <= l.Last(a) then NodeComments(l.Last(a), l.Slot(a)) else []
    }

    lemma CommentsAre(a: nat)
      requires img.Valid() && NodeMap() && (a in nodes ==> NodeLast(nodes[a]) >= 0)
      ensures CommentsAt(a) == if a in nodes then NodeComments(NodeLast(nodes[a]), nodes[a].slot) else []
    {
      hide NodeComments;
    }

    /** The nodes below `a` are filled, the others are not. */
    ghost predicate FilledUpTo(a: int)
      requires img.Valid()
      reads this`nodes, this`codeFirst, this`code, nodes.Values
    {
      forall b :: b in nodes ==>
        if b < a then Filled(nodes[b]) && ReturnIsKnown(nodes[b]) else nodes[b].Unfilled()
    }

    /** Fills the node at `a`, if there is one. */
    method FillAt(a: nat)
      requires img.Valid() && AttributesMatch() && Graph() && FilledUpTo(a)
      modifies this`comments, this`all, all
      ensures AttributesMatch() && Graph() && old(all) <= all && fresh(all - old(all))
      ensures FilledUpTo(a + 1)
      ensures comments == old(comments) + CommentsAt(a)
      ensures old(NodesAreNamed()) ==> NodesAreNamed()
    {
      hide MutualLinks, Filled, Matches, NodeComments, CommentsAt, LinksWithin, ReturnIsKnown;
      ghost var p := Progress();
      if a in nodes {
        var node := nodes[a];
        assert forall b :: b in nodes && b != a ==> nodes[b] != node;
        FillNode(node);
        MatchesTrace(p, Progress());
      }
      CommentsAre(a);
    }

    /** The second pass: fills all nodes, and comments on their links. */
    method FillNodes()
      requires img.Valid() && AttributesMatch() && ShallowNodes()
      requires forall a :: a in nodes ==> nodes[a] in all
      requires forall n :: n in all ==> n.start in nodes && nodes[n.start] == n
      modifies this`comments, this`all, all
      ensures AttributesMatch() && Graph() && old(all) <= all && fresh(all - old(all))
      ensures forall a :: a in nodes ==> Filled(nodes[a]) && ReturnIsKnown(nodes[a])
      ensures comments == old(comments) + FillComments(MEM_SIZE) && NodesAreNamed() && InsertionOrder()
    {
      hide Filled, Matches, CommentsAt, FillComments, MutualLinks, ShallowNodes, FilledUpTo, NodeMap, NodesAreNamed,
           Graph, InsertionOrder, ReturnIsKnown;
      NothingFilled();
      NoFillComments();
      for a := 0 to MEM_SIZE
        invariant AttributesMatch() && Graph() && old(all) <= all && fresh(all - old(all))
        invariant FilledUpTo(a) && NodesAreNamed()
        invariant comments == old(comments) + FillComments(a)
      {
        FillAt(a);
        MoreFillComments(a);
      }
      AllFilled();
    }

    lemma NoFillComments()
      requires img.Valid()
      ensures FillComments(0) == []
    {
    }

    lemma MoreFillComments(n: nat)
      requires img.Valid()
      ensures FillComments(n + 1) == FillComments(n) + CommentsAt(n)
    {
    }

    lemma NothingFilled()
      requires img.Valid() && ShallowNodes()
      requires forall a :: a in nodes ==> nodes[a] in all
      requires forall n :: n in all ==> n.start in nodes && nodes[n.start] == n
      ensures Graph() && FilledUpTo(0) && NodesAreNamed() && InsertionOrder()
    {
      hide Filled, MutualLinks;
      ShallowLinks(all);
    }

    lemma AllFilled()
      requires img.Valid() && Graph() && FilledUpTo(MEM_SIZE)
      ensures forall a :: a in nodes ==> Filled(nodes[a]) && ReturnIsKnown(nodes[a])
    {
      hide Filled, MutualLinks, ReturnIsKnown;
    }

    /** A start address was analysed, refused, or has no memory. */
    ghost predicate StartDone(a: int)
      reads this`codeFirst, this`comments
    {
      a in codeFirst || Ambiguous(a, a) in comments || a !in img.assignedBytes
    }

    /** `createNodes`, for one of the sorted start addresses. */
    method CreateStart(addr: int, ghost starts: set<int>)
      requires AttributesMatch() && ShallowNodes() && placed == []
      requires Inv(img, starts, Progress(), {}, {})
      requires addr in starts && addr in img.slotBanks
      modifies this`nodes, this`nodeOrder, this`comments, this`flowAnalyzed, this`code, this`codeFirst, this`trace
      ensures AttributesMatch() && ShallowNodes()
      ensures Inv(img, starts, Progress(), {}, {})
      ensures StartDone(addr)
      ensures codeFirst >= old(codeFirst) && old(comments) <= comments
      ensures forall a :: a in nodes ==> (a in old(nodes) && nodes[a] == old(nodes)[a]) || fresh(nodes[a])
    {
      hide Sound, Fresh, Reported, Rooted, Closed, Explained, Wanted;
      if HasAttribute(flowAnalyzed, addr) {
        // Does it fit the already done disassembly?
        if !HasAttribute(codeFirst, addr) {
          NodesAreFirst(img, starts, Progress());
          RequestKeepsInv(img, starts, Progress(), addr);
          assert {} + {addr} == {addr};
          ghost var p := Progress();
          comments := comments + [Ambiguous(addr, addr)];
          SettleKeepsInv(img, starts, p, addr, Progress(), {}, {});
        }
      } else {
        CreateNodeForAddress(addr, starts);
        NodesAreFirst(img, starts, Progress());
      }
    }

    /** Creates the nodes for all flows from the given addresses. */
    method CreateNodes(addresses: seq<int>)
      requires img.Valid() && forall a :: a in addresses ==> a in img.slotBanks
      requires nodes == map[] && nodeOrder == [] && comments == [] && trace == [] && placed == []
      requires flowAnalyzed == {} && code == {} && codeFirst == {}
      modifies this`nodes, this`nodeOrder, this`comments, this`flowAnalyzed, this`code, this`codeFirst, this`trace
      ensures AttributesMatch() && ShallowNodes()
      ensures Done(img, Elems(addresses), Progress())
      ensures forall a :: a in nodes ==> fresh(nodes[a])
    {
      hide Inv, AttributesMatch, ShallowNodes;
      ghost var starts := Elems(addresses);
      var sortedAddresses := Sort(addresses);
      SortKeepsElements(addresses);
      NothingDone(starts);
      for i := 0 to |sortedAddresses|
        invariant AttributesMatch() && ShallowNodes()
        invariant Inv(img, starts, Progress(), {}, {})
        invariant forall j :: 0 <= j < i ==> StartDone(sortedAddresses[j])
        invariant forall a :: a in nodes ==> fresh(nodes[a])
      {
        CreateStart(sortedAddresses[i], starts);
      }
      StartsDone(starts);
    }

    lemma NothingDone(starts: set<int>)
      requires img.Valid() && Progress() == Flow.Progress([], {}, []) && nodeOrder == []
      requires flowAnalyzed == {} && code == {} && codeFirst == {}
      ensures AttributesMatch() && ShallowNodes()
      ensures Inv(img, starts, Progress(), {}, {})
    {
      EmptyInv(img, starts, Progress());
    }

    lemma StartsDone(starts: set<int>)
      requires AttributesMatch() && Inv(img, starts, Progress(), {}, {})
      requires forall a :: a in starts ==> StartDone(a)
      ensures Done(img, starts, Progress())
    {
      hide Sound, Fresh, Reported, Rooted, Closed, Explained, Wanted;
    }

    /** `createNodesForLabels`, for one label. */
    method PlaceLabel(addr: int, text: nat)
      requires ShallowNodes() && OthersAreNamed(otherLabels) && NamesHaveNodes()
      requires forall a :: a in codeFirst ==> a in img.slotBanks && 0 <= a < MEM_SIZE
      requires forall a :: a in nodes ==> a in codeFirst
      modifies this`nodes, this`nodeOrder, this`otherLabels, this`placed
      modifies (if addr in nodes then {nodes[addr]} else {})`nodeLabel
      ensures placed == old(placed) + [(addr, text)]
      ensures ShallowNodes() && OthersAreNamed(otherLabels) && NamesHaveNodes()
      ensures forall a :: a in old(nodes) ==> a in nodes && nodes[a] == old(nodes)[a]
      ensures forall a :: a in nodes && a !in old(nodes) ==> a == addr && fresh(nodes[a]) && a in codeFirst
    {
      NameAtMore(placed, addr, text);
      if HasAttribute(codeFirst, addr) {
        NameNode(addr, text);
      } else {
        otherLabels := otherLabels[addr := Named(text)];
        placed := placed + [(addr, text)];
      }
    }

    /** Labels the node at a CODE_FIRST address. */
    method NameNode(addr: int, text: nat)
      requires ShallowNodes() && addr in codeFirst && addr in img.slotBanks
               && (NameAt(placed, addr).Some? ==> addr in nodes)
      modifies this`nodes, this`nodeOrder, this`placed, (if addr in nodes then {nodes[addr]} else {})`nodeLabel
      ensures placed == old(placed) + [(addr, text)] && ShallowNodes()
      ensures addr in nodes && forall a :: a in old(nodes) ==> a in nodes && nodes[a] == old(nodes)[a]
      ensures forall a :: a in nodes && a !in old(nodes) ==> a == addr && fresh(nodes[a])
    {
      hide ShallowNodes;
      if addr !in nodes {
        var _ := CreateNodeInMap(addr);
      }
      LabelNode(addr, text);
    }

    method LabelNode(addr: int, text: nat)
      requires ShallowNodes() && addr in nodes
      modifies this`placed, {nodes[addr]}`nodeLabel
      ensures placed == old(placed) + [(addr, text)] && ShallowNodes()
    {
      NameAtMore(placed, addr, text);
      assert forall a :: a in nodes && a != addr ==> nodes[a] != nodes[addr];
      nodes[addr].nodeLabel := Some(Named(text));
      placed := placed + [(addr, text)];
    }

    /** A label of an analysed instruction gets a node of its own, any other label is
        kept in a separate map. */
    method CreateNodesForLabels(labels: seq<(int, nat)>, ghost mine: set<AsmNode>)
      requires ShallowNodes() && OthersAreNamed(otherLabels) && NamesHaveNodes() && placed == []
      requires forall a :: a in nodes ==> nodes[a] in mine
      requires forall a :: a in codeFirst ==> a in img.slotBanks && 0 <= a < MEM_SIZE
      requires forall a :: a in nodes ==> a in codeFirst
      modifies this`nodes, this`nodeOrder, this`otherLabels, this`placed, mine`nodeLabel
      ensures placed == labels
      ensures ShallowNodes() && OthersAreNamed(otherLabels) && NamesHaveNodes()
      ensures forall a :: a in old(nodes) ==> a in nodes && nodes[a] == old(nodes)[a]
      ensures forall a :: a in nodes ==> a in old(nodes) || (a in codeFirst && fresh(nodes[a]))
    {
      hide ShallowNodes, OthersAreNamed, NamesHaveNodes;
      for i := 0 to |labels|
        invariant placed == labels[..i]
        invariant ShallowNodes() && OthersAreNamed(otherLabels) && NamesHaveNodes()
        invariant forall a :: a in old(nodes) ==> a in nodes && nodes[a] == old(nodes)[a]
        invariant forall a :: a in nodes ==> a in old(nodes) || (a in codeFirst && fresh(nodes[a]))
      {
        ghost var nodes' := nodes;
        PlaceLabel(labels[i].0, labels[i].1);
        assert forall a :: a in nodes' ==> a in nodes;
        assert labels[..i + 1] == labels[..i] + [labels[i]];
      }
      assert labels[..|labels|] == labels;
    }

    /** Forgets the previous disassembly; only the memory and the blocks remain. */
    method Reset()
      modifies this`nodes, this`nodeOrder, this`otherLabels, this`comments
      modifies this`flowAnalyzed, this`code, this`codeFirst
      modifies this`trace, this`all, this`placed
      ensures nodes == map[] && nodeOrder == [] && comments == [] && trace == [] && placed == [] && otherLabels == map[]
      ensures flowAnalyzed == {} && code == {} && codeFirst == {}
    {
      nodes, nodeOrder, otherLabels, comments := map[], [], map[], [];
      flowAnalyzed, code, codeFirst := {}, {}, {};
      trace, all, placed := [], {}, [];
    }

    /** Starts from scratch and creates the nodes for all flows. */
    method CreateFlowNodes(addresses: seq<int>)
      requires img.Valid() && forall a :: a in addresses ==> a in img.slotBanks
      modifies this
      ensures AttributesMatch() && ShallowNodes()
      ensures Done(img, Elems(addresses), Progress())
      ensures forall a :: a in nodes ==> nodes[a] in all
      ensures fresh(all) && placed == [] && otherLabels == map[]
    {
      hide Done, ShallowNodes, AttributesMatch;
      Reset();
      CreateNodes(addresses);
      all := set a | a in nodes :: nodes[a];
    }

    /** The first pass, with nodes for the labels. */
    method CreateAllNodes(addresses: seq<int>, labels: seq<(int, nat)>) returns (ghost p: Progress)
      requires img.Valid() && forall a :: a in addresses ==> a in img.slotBanks
      modifies this
      ensures AttributesMatch() && ShallowNodes()
      ensures Done(img, Elems(addresses), p) && comments == p.comments
      ensures forall a :: a in codeFirst <==> p.First(a)
      ensures forall a :: a in p.nodes ==> a in nodes
      ensures forall a :: a in nodes ==> a in codeFirst && fresh(nodes[a])
      ensures forall a :: a in nodes ==> nodes[a] in all
      ensures forall n :: n in all ==> n.start in nodes && nodes[n.start] == n
      ensures fresh(all) && placed == labels && OthersAreNamed(otherLabels) && NamesHaveNodes()
    {
      hide Done, ShallowNodes, Matches;
      CreateFlowNodes(addresses);
      p := Progress();
      CodeIsMapped(addresses);
      CreateNodesForLabels(labels, all);
      MatchesTrace(p, Progress());
      CollectNodes();
    }

    ghost method CollectNodes()
      requires ShallowNodes()
      modifies this`all
      ensures forall a :: a in nodes ==> nodes[a] in all
      ensures forall n :: n in all ==> n.start in nodes && nodes[n.start] == n
    {
      all := set a | a in nodes :: nodes[a];
    }

    lemma MatchesTrace(p: Progress, q: Progress)
      requires Matches(p) && p.trace == q.trace
      ensures Matches(q)
      ensures forall a :: a in codeFirst <==> p.First(a)
    {
      SameTrace(img, p, q);
    }

    lemma CodeIsMapped(addresses: seq<int>)
      requires AttributesMatch() && Done(img, Elems(addresses), Progress())
      ensures forall a :: a in codeFirst ==> a in img.slotBanks && 0 <= a < MEM_SIZE
      ensures forall a :: a in nodes ==> a in codeFirst
    {
      hide Sound, Fresh, Reported, Rooted, Closed, Explained, Wanted;
      forall a | a in codeFirst ensures a in img.slotBanks {
        FirstIsMapped(img, Elems(addresses), Progress(), a);
      }
      NodesAreFirst(img, Elems(addresses), Progress());
    }

    /** The nodes with a RET. */
    ghost function Returning(): set<AsmNode>
      reads this`nodes, this`codeFirst
    {
      set a | a in nodes && Returns(CodeLayout().Trail(nodes[a].start, nodes[a].slot)) :: nodes[a]
    }

    /** `markSubroutines` */
    method MarkNodes() returns (ghost early: set<AsmNode>)
      requires img.Valid() && Graph() && InsertionOrder() && forall a :: a in nodes ==> ReturnIsKnown(nodes[a])
      modifies all`isSubroutine
      ensures Graph() && AreMarks(nodeOrder, Returning(), early, Marked(all), all)
    {
      hide *;
      ReturningAreMarked();
      GraphLinks();
      early := MarkSubroutines(nodeOrder, all);
      OnlyMapIsMarked(old(Marked(all)), early);
    }

    lemma GraphLinks()
      requires Graph()
      ensures MutualLinks(all)
    {
    }

    lemma ReturningAreMarked()
      requires Graph() && InsertionOrder() && forall a :: a in nodes ==> ReturnIsKnown(nodes[a])
      ensures Marked(all) == Returning() && IsOrder(nodeOrder, Returning(), all)
      ensures NodeMap() && forall a :: a in nodes ==> nodes[a] in all
      ensures forall x :: x in all ==>
                (x.start in nodes && nodes[x.start] == x) || (x.branchNodes == [] && x.callee == null)
    {
      hide MutualLinks, Returns;
      forall x | x in all
        ensures x.isSubroutine <==> x in Returning()
        ensures (x.start in nodes && nodes[x.start] == x) || (x.branchNodes == [] && x.callee == null)
      {
        assert MapOrEnd(x);
      }
    }

    /** The ends of flows are never marked: nothing goes on from there. */
    lemma OnlyMapIsMarked(returning: set<AsmNode>, early: set<AsmNode>)
      requires MutualLinks(all) && NodeMap() && InsertionOrder() && forall a :: a in nodes ==> nodes[a] in all
      requires AreMarks(nodeOrder, returning, early, Marked(all), all)
      requires forall x :: x in all ==>
                (x.start in nodes && nodes[x.start] == x) || (x.branchNodes == [] && x.callee == null)
      ensures Graph()
    {
      hide MutualLinks, AreMarks, Flowing;
      forall x | x in all
        ensures MapOrEnd(x)
      {
        if x.isSubroutine && x.branchNodes == [] {
          MarkedEnd(nodeOrder, returning, early, Marked(all), all, x);
          assert x in nodeOrder;
        }
      }
    }

    /** The passes of `getFlowGraph` that build the graph and partition it into blocks. */
    method BuildGraph(addresses: seq<int>, labels: seq<(int, nat)>)
      returns (ghost p: Progress, ghost s: seq<AsmNode>, ghost runs: seq<Run>, ghost early: set<AsmNode>)
      requires img.Valid() && forall a :: a in addresses ==> a in img.slotBanks
      requires blocks.Length == MEM_SIZE
      modifies this, blocks
      ensures BuiltFrom(Elems(addresses), p) && AttributesMatch()
      ensures comments == p.comments + FillComments(MEM_SIZE)
      ensures Graph() && forall a :: a in nodes ==> Filled(nodes[a])
      ensures AreMarks(nodeOrder, Returning(), early, Marked(all), all)
      ensures HasBlocks(blocks, old(blocks[..]), nodes, s, runs, all)
      ensures placed == labels && NodesAreNamed() && OthersAreNamed(otherLabels) && NamesHaveNodes() && fresh(all)
    {
      hide *;
      p := CreateAllNodes(addresses, labels);
      FillNodes();
      early := MarkNodes();
      IsBuiltFrom(Elems(addresses), p);
      ReadyForBlocks();
      ghost var before := blocks[..];
      assert forall x, a :: 0 <= x < |before| && a in nodes ==> before[x] != nodes[a];
      s, runs := PartitionBlocks(nodes, blocks, all);
      AreBlocks(before, s, runs);
    }

    /** The passes of `getFlowGraph` that label the nodes and the data to which
        instructions refer. */
    method LabelGraph(fileLabels: map<int, nat>, ghost before: seq<AsmNode?>, ghost s: seq<AsmNode>,
                      ghost runs: seq<Run>)
      returns (ghost plan: Plan)
      requires img.Valid() && AttributesMatch() && Graph() && CodeLayout().Followed()
      requires forall a :: a in nodes ==> Filled(nodes[a])
      requires HasBlocks(blocks, before, nodes, s, runs, all) && blocks.Length == MEM_SIZE
      modifies this`otherLabels, all`nodeLabel
      ensures Fits(plan, nodes, blocks, before, s, runs, all)
              && plan.Labelled(old(NodeLabels.Labels(s)), NodeLabels.Labels(s))
      ensures OtherLabelsFrom(old(otherLabels), fileLabels)
      ensures ReferencesLabelled(fileLabels)
    {
      hide *;
      ReadyForBlocks();
      plan := MakePlan(nodes, blocks, before, s, runs, all);
      SortedInAll(blocks, before, nodes, s, runs, all);
      AssignNodeLabels(nodes, blocks, before, s, runs, all, plan);
      AssignOpcodeReferenceLabels(fileLabels, before, s, runs);
    }

    /** `getFlowGraph`: builds the graph, partitions it into blocks, and labels the nodes
        and the data to which instructions refer. The labels of the list come first: `named`
        are those of the nodes, `others` those of other addresses. */
    method GetFlowGraph(addresses: seq<int>, labels: seq<(int, nat)>, fileLabels: map<int, nat>)
      returns (ghost p: Progress, ghost s: seq<AsmNode>, ghost runs: seq<Run>, ghost plan: Plan,
               ghost named: seq<Option<Label>>, ghost others: map<int, Label>, ghost early: set<AsmNode>)
      requires img.Valid() && forall a :: a in addresses ==> a in img.slotBanks
      requires blocks.Length == MEM_SIZE
      modifies this, blocks
      ensures BuiltFrom(Elems(addresses), p) && AttributesMatch()
      ensures comments == p.comments + FillComments(MEM_SIZE)
      ensures Graph() && forall a :: a in nodes ==> Filled(nodes[a])
      ensures AreMarks(nodeOrder, Returning(), early, Marked(all), all)
      ensures HasBlocks(blocks, old(blocks[..]), nodes, s, runs, all)
      ensures Fits(plan, nodes, blocks, old(blocks[..]), s, runs, all) && plan.Labelled(named, NodeLabels.Labels(s))
      ensures |named| == |s| && forall k :: 0 <= k < |s| ==> named[k] == NameAt(labels, s[k].start)
      ensures placed == labels && NamesHaveNodes() && OthersAreNamed(others) && OtherLabelsFrom(others, fileLabels)
      ensures ReferencesLabelled(fileLabels)
    {
      hide *;
      p, s, runs, early := BuildGraph(addresses, labels);
      SortedAreNamed(old(blocks[..]), s, runs);
      named, others := NodeLabels.Labels(s), otherLabels;
      CodeLiesInNodes(Elems(addresses), p);
      plan := LabelGraph(fileLabels, old(blocks[..]), s, runs);
    }

    /** A label of the list that is the last one for its address is where it belongs. */
    lemma ListLabelIsPlaced(k: nat, named: seq<Option<Label>>, s: seq<AsmNode>, runs: seq<Run>, plan: Plan,
                            before: seq<AsmNode?>,
                            others: map<int, Label>, fileLabels: map<int, nat>)
      requires k < |placed| && forall j :: k < j < |placed| ==> placed[j].0 != placed[k].0
      requires HasBlocks(blocks, before, nodes, s, runs, all)
      requires plan.Labelled(named, NodeLabels.Labels(s)) && |named| == |s|
      requires forall i :: 0 <= i < |s| ==> named[i] == NameAt(placed, s[i].start)
      requires NodeMap() && NamesHaveNodes() && OthersAreNamed(others) && OtherLabelsFrom(others, fileLabels)
      ensures var (addr, text) := placed[k];
              if addr in codeFirst then addr in nodes && nodes[addr].nodeLabel == Some(Named(text))
              else addr in otherLabels && otherLabels[addr] == Named(text)
    {
      hide Partitioned, Registered, Stale, OtherLabelsFrom;
      LastNameCounts(placed, k);
      var addr := placed[k].0;
      if addr in codeFirst {
        var i :| 0 <= i < |s| && s[i] == nodes[addr];
        assert plan.LabelIs(named, NodeLabels.Labels(s), i);
      } else {
        OthersAreKept(others, fileLabels);
      }
    }

    lemma OthersAreKept(others: map<int, Label>, fileLabels: map<int, nat>)
      requires blocks.Length == MEM_SIZE && OtherLabelsFrom(others, fileLabels)
      ensures forall a :: a in others ==> a in otherLabels && otherLabels[a] == others[a]
    {
    }

    lemma IsBuiltFrom(starts: set<int>, p: Progress)
      requires Done(img, starts, p)
      requires forall a :: a in codeFirst <==> p.First(a)
      requires forall a :: a in p.nodes ==> a in nodes
      requires forall a :: a in nodes ==> a in codeFirst
      ensures BuiltFrom(starts, p)
    {
      hide Done;
    }

    lemma AreBlocks(before: seq<AsmNode?>, s: seq<AsmNode>, runs: seq<Run>)
      requires blocks.Length == MEM_SIZE && IsSorted(s, nodes) && Partitioned(s, runs, |s|, all)
      requires Registered(blocks, before, s, runs)
      requires forall x, a :: 0 <= x < |before| && a in nodes ==> before[x] != nodes[a]
      ensures HasBlocks(blocks, before, nodes, s, runs, all)
    {
    }

    /** The nodes in memory order are those of the map. */
    lemma SortedAreNamed(before: seq<AsmNode?>, s: seq<AsmNode>, runs: seq<Run>)
      requires HasBlocks(blocks, before, nodes, s, runs, all)
      ensures forall n :: n in s ==> n.start in nodes && nodes[n.start] == n
      ensures NodesAreNamed() ==> forall k :: 0 <= k < |s| ==> s[k].nodeLabel == NameAt(placed, s[k].start)
    {
      hide Partitioned, Registered, Stale;
      forall n | n in s
        ensures n.start in nodes && nodes[n.start] == n
      {
        var k :| 0 <= k < |s| && s[k] == n;
        SortedMember(s, nodes, k);
      }
    }

    lemma ReadyForBlocks()
      requires img.Valid() && Graph() && forall a :: a in nodes ==> Filled(nodes[a])
      ensures forall a :: a in nodes ==>
                0 <= a < MEM_SIZE && nodes[a].start == a && nodes[a].length > 0 && nodes[a] in all
      ensures forall x :: x in all ==> LinksWithin(x, all)
    {
      forall a | a in nodes ensures nodes[a].length > 0 {
        var l := CodeLayout();
        l.TrailBounds(a, l.Last(a));
      }
    }

    /** When the byte ranges of the nodes are disjoint, so are the blocks: then exactly
        those nodes have a label in the end that have one in the list, or are called, or to
        which there are branches; in the first node of a block any branch counts, in the others
        not a single one that is the flow from the node right before. */
    lemma LabelledIffReferenced(before: seq<AsmNode?>, s: seq<AsmNode>, runs: seq<Run>, plan: Plan,
                                named: seq<Option<Label>>, labels: seq<Option<Label>>, k: nat)
      requires img.Valid() && Graph() && CodeLayout().NodesDisjoint() && forall a :: a in nodes ==> Filled(nodes[a])
      requires HasBlocks(blocks, before, nodes, s, runs, all) && Fits(plan, nodes, blocks, before, s, runs, all)
      requires plan.Labelled(named, labels) && k < |s| == |named| == |labels|
      ensures labels[k].Some? <==>
              || named[k].Some? || IsCalled(s[k], all)
              || (if runs[k].root == k then IsEntered(s[k], all)
                  else IsEnteredTwice(s[k], all) || IsJumpedTo(s[k], all))
    {
      hide *;
      GraphLinks();
      ReadyForBlocks();
      SortedInAll(blocks, before, nodes, s, runs, all);
      assert s[k] in s;
      ReferencedIff(s[k], all);
      OtherReferenceIff(s[k], all);
      DisjointNodesAreApart(before, s, runs);
      AllVisited(plan, nodes, blocks, before, s, runs, all, k);
      PlanMeans(before, s, runs, plan, k);
      plan.LabelledIff(named, labels, k);
    }

    lemma PlanMeans(before: seq<AsmNode?>, s: seq<AsmNode>, runs: seq<Run>, plan: Plan, k: nat)
      requires Fits(plan, nodes, blocks, before, s, runs, all) && k < |s|
      ensures |plan.starts| == |plan.roots| == |plan.visited| == |s| == |plan.refs.any| == |plan.refs.other|
      ensures plan.roots[k] == runs[k].root
      ensures plan.refs.any[k] == Referenced(s[k]) && plan.refs.other[k] == OtherReference(s[k])
    {
      hide HasBlocks, OnLoop, OtherReference, LinksWithin;
    }

    lemma DisjointNodesAreApart(before: seq<AsmNode?>, s: seq<AsmNode>, runs: seq<Run>)
      requires img.Valid() && Graph() && CodeLayout().NodesDisjoint() && forall a :: a in nodes ==> Filled(nodes[a])
      requires HasBlocks(blocks, before, nodes, s, runs, all)
      ensures Apart(runs)
    {
      hide Filled, MutualLinks, Registered, Stale, StartsBlock;
      var l := CodeLayout();
      forall i, j | 0 <= i < j < |runs|
        ensures runs[i].end <= runs[j].start
      {
        DescribesAt(s, runs, all, i);
        DescribesAt(s, runs, all, j);
        SortedMember(s, nodes, i);
        SortedMember(s, nodes, j);
        FilledLength(s[i].start);
        FilledLength(s[j].start);
        l.TrailBounds(s[j].start, l.Last(s[j].start));
        assert l.InNode(s[j].start, s[j].start);
        assert l.InNode(s[i].start, s[j].start) <==> runs[j].start < runs[i].end;
      }
    }

    /** `m` is the node at its address, or stands for an address in another bank. */
    ghost predicate IsRealNode(m: AsmNode, slot: int)
      reads this`nodes
    {
      (m.start in nodes && m == nodes[m.start]) || (img.BankBorderPassed(slot, m.start) && m.bankBorder)
    }

    /** In a clean layout the second pass never invents a node of the same bank. */
    lemma LinksAreReal(a: int)
      requires CodeLayout().Clean() && NodeMap() && a in nodes && Filled(nodes[a])
      ensures forall m :: m in nodes[a].branchNodes ==> IsRealNode(m, nodes[a].slot)
      ensures nodes[a].callee != null ==> IsRealNode(nodes[a].callee, nodes[a].slot)
    {
      hide Layout.BranchTargets, Layout.Trail;
      var l, n := CodeLayout(), nodes[a];
      assert l.HasTargets(a);
      var targets := l.BranchTargets(NodeLast(n), n.slot);
      forall m | m in n.branchNodes ensures IsRealNode(m, n.slot) {
        var i :| 0 <= i < |n.branchNodes| && n.branchNodes[i] == m;
        var op, next := img.decode(NodeLast(n)), img.Next(NodeLast(n));
        if op.branchAddress || op.stop || next !in nodes {
          assert l.LeadsTo(a, targets[i]);
        }
      }
      if n.callee != null {
        assert l.LeadsTo(a, img.decode(NodeLast(n)).value);
      }
    }

    /** A successor of the node, or the node that it calls, starts at `b`. */
    ghost predicate LinksTo(n: AsmNode, b: int)
      reads n`branchNodes, n`callee
    {
      BranchesTo(n, b) || (n.callee != null && n.callee.start == b)
    }

    ghost predicate BranchesTo(n: AsmNode, b: int)
      reads n`branchNodes
    {
      exists m :: m in n.branchNodes && m.start == b
    }

    lemma LinksBranch(ms: seq<AsmNode>, slot: int, bs: seq<int>, b: int)
      requires LinksOf(ms, slot, bs)
      ensures (exists m :: m in ms && m.start == b) <==> b in bs
    {
      if b in bs {
        var i :| 0 <= i < |bs| && bs[i] == b;
        assert StandsFor(ms[i], slot, bs[i]);
      }
    }

    /** The edges of the graph are the control flow, in every run, ambiguous or not: a node is
        linked with exactly the addresses to which its last instruction may lead, unless that
        stops, or the line ends because of an overlap. */
    lemma LinksAreFlow(a: int, b: int)
      requires img.Valid() && NodeMap() && a in nodes && Filled(nodes[a])
      ensures var last, op := NodeLast(nodes[a]), img.decode(NodeLast(nodes[a]));
              LinksTo(nodes[a], b) <==>
              && img.MayLead(last, b)
              && (op.branchAddress || (!op.stop && (b in nodes || !CodeLayout().Overlapped(last))))
              && (b < MEM_SIZE || (op.branchAddress && b == op.value))
    {
      hide Layout.Trail, Layout.Overlapped, LinksOf;
      var l, n := CodeLayout(), nodes[a];
      var last, op := NodeLast(n), img.decode(NodeLast(n));
      if !op.branchAddress && !op.stop && img.Next(last) in nodes {
        assert n.branchNodes[0] == nodes[img.Next(last)];
      } else {
        LinksBranch(n.branchNodes, n.slot, l.BranchTargets(last, n.slot), b);
      }
    }

    /** Without ambiguities, therefore, exactly where it may lead. A jump leads to a successor,
        a call to the called node; that is a successor only if it is the return address. */
    lemma CleanLinksAreFlow(a: int, b: int)
      requires CodeLayout().Clean() && NodeMap() && a in nodes && Filled(nodes[a]) && b < MEM_SIZE
      ensures var last, op := NodeLast(nodes[a]), img.decode(NodeLast(nodes[a]));
              && (LinksTo(nodes[a], b) <==> img.MayLead(last, b) && (op.branchAddress || !op.stop))
              && (op.branchAddress && !op.call ==> BranchesTo(nodes[a], op.value) && nodes[a].callee == null)
              && (op.branchAddress && op.call ==>
                    && nodes[a].callee != null && nodes[a].callee.start == op.value
                    && (BranchesTo(nodes[a], b) <==> !op.stop && b == img.SkipOver(img.Next(last))))
    {
      hide Layout.Trail, LinksOf;
      var l, n := CodeLayout(), nodes[a];
      var last, op := NodeLast(n), img.decode(NodeLast(n));
      LinksAreFlow(a, b);
      l.NodeIsRun(a);
      assert !l.Overlapped(last);
      if op.branchAddress {
        LinksAreFlow(a, op.value);
        LinksBranch(n.branchNodes, n.slot, l.BranchTargets(last, n.slot), b);
        LinksBranch(n.branchNodes, n.slot, l.BranchTargets(last, n.slot), op.value);
      }
    }

    /** The comments are about the links that lead out of the map: into another bank, to analysed
        code without a node, or to memory that was not fetched. A line that runs into a node
        across a bank border is not commented on. */
    lemma CommentsTellLinks(a: int, b: int)
      requires img.Valid() && NodeMap() && a in nodes && Filled(nodes[a]) && NodeLast(nodes[a]) >= 0
      ensures var n, last := nodes[a], NodeLast(nodes[a]);
              var cs, border := NodeComments(last, n.slot), img.BankBorderPassed(n.slot, b);
              && (DifferentBank(last, b) in cs <==>
                  LinksTo(n, b) && border && (img.decode(last).branchAddress || b !in nodes))
              && (Ambiguous(last, b) in cs <==>
                  LinksTo(n, b) && !border && b !in nodes && b in img.assignedBytes)
              && (BranchToUnassigned(last, b) in cs <==>
                  LinksTo(n, b) && !border && b !in nodes && b !in img.assignedBytes)
    {
      hide Layout.Trail, Layout.Overlapped, LinksTo, Filled;
      LinksAreFlow(a, b);
      LineStaysInBank(a);
    }

    lemma LineStaysInBank(a: int)
      requires img.Valid() && NodeMap() && a in nodes && NodeLast(nodes[a]) >= 0
      ensures var last, op := NodeLast(nodes[a]), img.decode(NodeLast(nodes[a]));
              !op.branchAddress && !op.stop && img.Next(last) < MEM_SIZE && img.Next(last) !in nodes
              && !CodeLayout().Overlapped(last) ==>
                img.BankBorderPassed(nodes[a].slot, img.Next(last))
    {
      hide Layout.Overlapped;
      var l, n := CodeLayout(), nodes[a];
      l.TrailStep(n.start, n.slot, |l.Trail(n.start, n.slot)| - 1);
    }

    /** An instruction is reported to spread over banks exactly if the line goes on from it in
        another, paged slot in which its last byte already lies. */
    lemma SpreadsIff(a: int)
      requires img.Valid() && NodeMap() && a in nodes && Filled(nodes[a]) && NodeLast(nodes[a]) >= 0
      ensures var n, last, next := nodes[a], NodeLast(nodes[a]), img.Next(NodeLast(nodes[a]));
              OpcodeSpreadsOverBanks(last) in NodeComments(last, n.slot) <==>
              && !img.decode(last).branchAddress && LinksTo(n, next) && next !in nodes
              && img.slotBanks[next - 1].slot == img.slotBanks[next].slot && !img.slotBanks[next].singleBank
    {
      hide Layout.Trail, Layout.Overlapped, LinksTo, Filled;
      LinksAreFlow(a, img.Next(NodeLast(nodes[a])));
    }

    /** The data references of a node are the data operands of its instructions, moved to the
        start of an instruction if they lie in the code. */
    lemma DataReferenceIff(a: int, r: int)
      requires img.Valid() && a in nodes && Filled(nodes[a])
      ensures r in nodes[a].dataReferences <==>
              exists u <- CodeLayout().Trail(nodes[a].start, nodes[a].slot) ::
                img.decode(u).dataLabel && Adjusted(img.decode(u).value, r)
    {
      hide Layout.Trail, Linked, Adjusted;
      var l, n := CodeLayout(), nodes[a];
      var t := l.Trail(n.start, n.slot);
      var values := l.DataLabels(t);
      forall v
        ensures v in values <==> exists u <- t :: img.decode(u).dataLabel && img.decode(u).value == v
      {
        l.DataLabelsAre(t, v);
      }
      if r in n.dataReferences {
        var i :| 0 <= i < |n.dataReferences| && n.dataReferences[i] == r;
        assert Adjusted(values[i], r) && values[i] in values;
      }
      if u :| u in t && img.decode(u).dataLabel && Adjusted(img.decode(u).value, r) {
        var v := img.decode(u).value;
        assert v in values;
        var i :| 0 <= i < |values| && values[i] == v;
        AdjustedOnce(values[i], r, n.dataReferences[i]);
      }
    }

    lemma AdjustedOnce(value: int, r: int, s: int)
      requires Adjusted(value, r) && Adjusted(value, s)
      ensures r == s
    {
    }

    /** The marks start at the nodes with a RET or RET cc among their instructions. */
    lemma ReturningIff(a: int)
      requires img.Valid() && NodeMap() && a in nodes && Filled(nodes[a])
      ensures nodes[a] in Returning() <==> exists op <- nodes[a].instructions :: op.ret && !op.branchAddress
    {
      hide Layout.Trail, Linked, DataReferencesOf;
      var l, n := CodeLayout(), nodes[a];
      var t := l.Trail(n.start, n.slot);
      if op :| op in n.instructions && op.ret && !op.branchAddress {
        var i :| 0 <= i < |n.instructions| && n.instructions[i] == op;
        SkipsDoNotReturn(img.Next(t[|t| - 1]));
        assert i < |t| && img.decode(t[i]) == op;
      }
      if Returns(t) {
        var i :| 0 <= i < |t| && img.decode(t[i]).ret && !img.decode(t[i]).branchAddress;
        assert n.instructions[i] == img.decode(t[i]);
      }
    }

    lemma {:induction false} SkipsDoNotReturn(a: int)
      requires img.Valid()
      ensures forall op :: op in CodeLayout().SkipCodes(a) ==> !op.ret
      decreases MEM_SIZE - a
    {
      if a in img.skips && img.skips[a] > 0 {
        SkipsDoNotReturn(a + img.skips[a]);
      }
    }

    /** A new label of a block is SUB or RST only if the first node of the block is called, or
        flows to a RET. */
    lemma SubroutineLabels(before: seq<AsmNode?>, s: seq<AsmNode>, runs: seq<Run>, plan: Plan,
                           named: seq<Option<Label>>, labels: seq<Option<Label>>, early: set<AsmNode>, k: nat)
      requires img.Valid() && Graph() && AreMarks(nodeOrder, Returning(), early, Marked(all), all)
      requires Fits(plan, nodes, blocks, before, s, runs, all) && plan.Labelled(named, labels)
      requires k < |s| == |named| == |labels| && named[k] == None
      requires labels[k].Some? && labels[k].value.GlobalLabel? && labels[k].value.prefix != LBL
      ensures runs[k].root == k && labels[k].value.addr == s[k].start
      ensures s[k].callers != [] || s[k] in Flowing(Returning(), all)
    {
      hide HasBlocks, AreReferences, VisitedInBlock, MutualLinks, Flowing, AreMarks, Returning;
      assert plan.LabelIs(named, labels, k);
      MarksAreBounded(nodeOrder, Returning(), early, Marked(all), all);
      assert s[k] in Marked(all);
    }

    /** The last instruction of the node at `a` calls `b`. */
    predicate CallsFrom(a: int, b: int)
      requires img.Valid()
      reads this`nodes, this`codeFirst
    {
      var l := Layout(img, codeFirst, nodes.Keys);
      var op := img.decode(l.Last(a));
      op.branchAddress && op.call && op.value == b && !img.BankBorderPassed(l.Slot(a), b)
    }

    /** The flow goes from the node at `a` to `b` without a call: by a jump, back from a
        routine, or on the line. */
    predicate FlowsFrom(a: int, b: int)
      requires img.Valid()
      reads this`nodes, this`codeFirst
    {
      var l := Layout(img, codeFirst, nodes.Keys);
      var last, op := l.Last(a), img.decode(l.Last(a));
      if op.branchAddress then
        !img.BankBorderPassed(l.Slot(a), b) &&
        ((!op.call && b == op.value) || (!op.stop && b == img.SkipOver(img.Next(last))))
      else
        !op.stop && b == img.Next(last)
    }

    lemma NodeFlows(a: int, b: int)
      requires CodeLayout().Clean() && NodeMap() && a in nodes && Filled(nodes[a]) && b in nodes
      ensures nodes[a].callee == nodes[b] <==> CallsFrom(a, b)
      ensures nodes[b] in nodes[a].branchNodes <==> FlowsFrom(a, b)
    {
      hide Layout.Trail, LinksOf;
      var l, n := CodeLayout(), nodes[a];
      var last, op := NodeLast(n), img.decode(NodeLast(n));
      l.NodeIsRun(a);
      assert !l.Overlapped(last) && b < MEM_SIZE && nodes[b].start == b && nodes[b] in nodes.Values;
      if op.branchAddress || op.stop || img.Next(last) !in nodes {
        LinksBranch(n.branchNodes, n.slot, l.BranchTargets(last, n.slot), b);
        StandsAt(n.branchNodes, n.slot, l.BranchTargets(last, n.slot), b);
      }
    }

    lemma StandsAt(ms: seq<AsmNode>, slot: int, bs: seq<int>, b: int)
      requires LinksOf(ms, slot, bs) && NodeMap() && b in nodes
      ensures nodes[b] in ms <==> b in bs && !img.BankBorderPassed(slot, b)
    {
      assert nodes[b] in nodes.Values && nodes[b].start == b;
      if b in bs {
        var i :| 0 <= i < |bs| && bs[i] == b;
        assert StandsFor(ms[i], slot, bs[i]);
      }
      if nodes[b] in ms {
        var i :| 0 <= i < |ms| && ms[i] == nodes[b];
        assert StandsFor(ms[i], slot, bs[i]);
      }
    }

    /** The links between the nodes of the map are the steps of the control flow, but that a
        line is linked with a node into which it runs even across a bank border. */
    lemma LinksAreSteps(a: int, b: int)
      requires CodeLayout().Clean() && NodeMap() && a in nodes && Filled(nodes[a]) && b in nodes
      ensures var n, last, op := nodes[a], NodeLast(nodes[a]), img.decode(NodeLast(nodes[a]));
              var s := Point(last, n.slot);
              nodes[b] in n.branchNodes || n.callee == nodes[b] <==>
              if op.branchAddress then img.Queues(s, b)
              else !op.stop && (img.Queues(s, b) || img.Falls(s, Point(b, n.slot)) ||
                                (b == img.Next(last) && img.BankBorderPassed(n.slot, b)))
    {
      hide Layout.Trail, LinksOf, Layout.Clean;
      CleanIsValid();
      NodeFlows(a, b);
    }

    /** Without ambiguities, which nodes are called and entered is said by the instructions. */
    lemma ReferencesAreFlow(b: int)
      requires Graph() && CodeLayout().Clean() && (forall a :: a in nodes ==> Filled(nodes[a])) && b in nodes
      ensures IsCalled(nodes[b], all) <==> exists a :: a in nodes && CallsFrom(a, b)
      ensures IsEntered(nodes[b], all) <==> exists a :: a in nodes && FlowsFrom(a, b)
    {
      hide MutualLinks, Filled, Layout.Clean, CallsFrom, FlowsFrom;
      CleanIsValid();
      forall a | a in nodes
        ensures nodes[a].callee == nodes[b] <==> CallsFrom(a, b)
        ensures nodes[b] in nodes[a].branchNodes <==> FlowsFrom(a, b)
      {
        NodeFlows(a, b);
      }
      if IsCalled(nodes[b], all) {
        var x :| x in all && x.callee == nodes[b];
        assert MapOrEnd(x);
      }
      if IsEntered(nodes[b], all) {
        var x :| x in all && nodes[b] in x.branchNodes;
        assert MapOrEnd(x);
      }
    }

    lemma CleanIsValid()
      requires CodeLayout().Clean()
      ensures img.Valid()
    {
    }

    /** The code attributes and nodes are what the first pass, `p`, and the labels
        left behind. */
    ghost predicate BuiltFrom(starts: set<int>, p: Progress)
      reads this`codeFirst, this`nodes
    {
      && Done(img, starts, p)
      && (forall a :: a in codeFirst <==> p.First(a))
      && (forall a :: a in p.nodes ==> a in nodes)
      && (forall a :: a in nodes ==> a in codeFirst)
    }

    /** In every run, ambiguous or not, every CODE_FIRST instruction lies in some node. */
    lemma CodeLiesInNodes(starts: set<int>, p: Progress)
      requires BuiltFrom(starts, p)
      ensures CodeLayout().Followed()
      ensures forall a :: a in codeFirst ==> exists n :: CodeLayout().Owns(n, a)
    {
      hide Inv, Layout.Owns;
      var l := CodeLayout();
      assert p.nodes <= l.nodes by {
        assert forall a :: a in p.nodes ==> a in nodes.Keys;
      }
      DoneIsFollowed(starts, p, l);
      forall a | a in codeFirst ensures exists n :: l.Owns(n, a) {
        assert l.HasOwner(a);
      }
    }

    /** Without an ambiguity the nodes contain nothing but the code, each instruction lies in
        one of them, and what they lead to has a node, as long as no flow leads to memory
        that was not fetched. */
    lemma CodeIsClean(starts: set<int>, p: Progress)
      requires BuiltFrom(starts, p) && !p.Ambiguity() && img.RequestsAssigned(starts)
      ensures CodeLayout().Clean()
      ensures forall a :: a in codeFirst <==> exists n :: CodeLayout().Owns(n, a)
      ensures forall a, n, m :: CodeLayout().Owns(n, a) && CodeLayout().Owns(m, a) ==> n == m
    {
      hide Inv, Layout.Clean, Layout.Owns, Flow.Progress.Ambiguity, Flow.Progress.First;
      var l := CodeLayout();
      assert p.nodes <= l.nodes by {
        assert forall a :: a in p.nodes ==> a in nodes.Keys;
      }
      DoneIsClean(starts, p, l);
      forall a
        ensures a in codeFirst <==> exists n :: l.Owns(n, a)
      {
        l.NodesPartitionCode(a);
      }
      forall a, n, m | l.Owns(n, a) && l.Owns(m, a)
        ensures n == m
      {
        l.NodesPartitionCode(a);
      }
    }

    /** An ambiguity is reported exactly when reachable instructions overlap. Without one,
        the code is exactly what is reachable. */
    lemma CodeIsExact(starts: set<int>, p: Progress)
      requires BuiltFrom(starts, p) && img.BordersAgree(starts) && forall a :: a in starts ==> a in img.slotBanks
      ensures img.InsidesAssigned(starts) ==> (p.Ambiguity() <==> ReachableOverlap(img, starts))
      ensures !p.Ambiguity() ==> forall a :: a in codeFirst <==> img.ReachesAddr(starts, a)
    {
      hide Sound, Fresh, Reported, Rooted, Closed, Explained, Wanted, Flow.Progress.Ambiguity, ReachableOverlap;
      if img.InsidesAssigned(starts) {
        AmbiguityIffOverlap(img, starts, p);
      }
      if !p.Ambiguity() {
        forall a ensures a in codeFirst <==> img.ReachesAddr(starts, a) {
          FlowIsReachability(img, starts, p, a);
        }
      }
    }

    /** Without an ambiguity all links lead to nodes of the map or into another bank. */
    lemma GraphIsReal(starts: set<int>, p: Progress)
      requires BuiltFrom(starts, p) && !p.Ambiguity() && img.RequestsAssigned(starts)
      requires NodeMap() && forall a :: a in nodes ==> Filled(nodes[a])
      ensures forall a, m :: a in nodes && m in nodes[a].branchNodes ==> IsRealNode(m, nodes[a].slot)
      ensures forall a :: a in nodes && nodes[a].callee != null ==> IsRealNode(nodes[a].callee, nodes[a].slot)
    {
      hide BuiltFrom, Filled;
      CodeIsClean(starts, p);
      forall a | a in nodes
        ensures forall m :: m in nodes[a].branchNodes ==> IsRealNode(m, nodes[a].slot)
        ensures nodes[a].callee != null ==> IsRealNode(nodes[a].callee, nodes[a].slot)
      {
        LinksAreReal(a);
      }
    }

    /** The comments of the whole analysis: the second pass adds no ambiguity if the first
        one found none, and then all comments are about bank borders. */
    lemma CommentsAreClean(starts: set<int>, p: Progress)
      requires BuiltFrom(starts, p) && img.RequestsAssigned(starts) && NodeMap()
      requires comments == p.comments + FillComments(MEM_SIZE)
      ensures (exists c :: c in comments && c.Ambiguous?) <==> p.Ambiguity()
      ensures !p.Ambiguity() ==> forall c :: c in comments ==> c.DifferentBank? || c.OpcodeSpreadsOverBanks?
    {
      hide Inv, FillComments;
      if p.Ambiguity() {
        var c :| c in p.comments && c.Ambiguous?;
        assert c in comments;
      } else {
        CodeIsClean(starts, p);
        CleanFillComments(MEM_SIZE);
        OnlyAmbiguities(starts, p);
        forall c | c in comments
          ensures c.DifferentBank? || c.OpcodeSpreadsOverBanks?
        {
        }
      }
    }

    /** An ambiguity is among them exactly when reachable instructions overlap, if it does
        not matter from which slots they are reached. */
    lemma CommentsAreExact(starts: set<int>, p: Progress)
      requires BuiltFrom(starts, p) && img.RequestsAssigned(starts) && NodeMap()
      requires img.BordersAgree(starts) && forall a :: a in starts ==> a in img.slotBanks
      requires comments == p.comments + FillComments(MEM_SIZE)
      ensures (exists c :: c in comments && c.Ambiguous?) <==> ReachableOverlap(img, starts)
    {
      hide BuiltFrom, FillComments, ReachableOverlap, Flow.Progress.Ambiguity;
      CommentsAreClean(starts, p);
      CodeIsExact(starts, p);
    }

    lemma OnlyAmbiguities(starts: set<int>, p: Progress)
      requires Done(img, starts, p)
      ensures forall c :: c in p.comments ==> c.Ambiguous?
    {
      hide Sound, Fresh, Reported, Rooted, Closed, Wanted;
    }

    lemma {:induction false} CleanFillComments(n: nat)
      requires CodeLayout().Clean() && NodeMap()
      ensures forall c :: c in FillComments(n) ==> c.DifferentBank? || c.OpcodeSpreadsOverBanks?
    {
      hide Layout.Clean, NodeComments;
      if n > 0 {
        CleanFillComments(n - 1);
        if n - 1 in nodes && CodeLayout().Last(n - 1) >= 0 {
          CleanComments(n - 1);
        }
      }
    }

    /** An address has a label: in the label files, of its node, or one of its own. */
    predicate HasLabel(fileLabels: map<int, nat>, r: int)
      reads this`nodes, nodes.Values`nodeLabel, this`otherLabels
    {
      r in fileLabels || (r in nodes && nodes[r].nodeLabel.Some?) || r in otherLabels
    }

    /** Every address to which an instruction refers has a label, unless it lies in another
        bank. */
    ghost predicate ReferencesLabelled(fileLabels: map<int, nat>)
      reads this`nodes, nodes.Values`nodeLabel, nodes.Values`dataReferences, this`otherLabels
    {
      forall a, r :: a in nodes && r in nodes[a].dataReferences && !img.BankBorderPassed(nodes[a].slot, r) ==>
        HasLabel(fileLabels, r)
    }

    /** The label that is made up for an address: a local one in the block for code. */
    function ReferenceLabel(r: int): Label
      requires blocks.Length == MEM_SIZE
      reads this`code, blocks, blocks[..]
    {
      if HasAttribute(code, r) then CodeLabel(if blocks[r] == null then None else blocks[r].nodeLabel, r)
      else DataLabel(r)
    }
    /** An instruction refers to the address in its own bank, and there is no node with a label. */
    ghost predicate AsksForLabel(a: int)
      reads this`nodes, nodes.Values`nodeLabel, nodes.Values`dataReferences
    {
      && !(a in nodes && nodes[a].nodeLabel.Some?)
      && exists b :: b in nodes && a in nodes[b].dataReferences && !img.BankBorderPassed(nodes[b].slot, a)
    }

    /** The labels of other addresses are those from before, and those that are made up for
        addresses that ask for one. */
    ghost predicate OtherLabelsFrom(before: map<int, Label>, fileLabels: map<int, nat>)
      requires blocks.Length == MEM_SIZE
      reads this`code, this`otherLabels, blocks, blocks[..]
      reads this`nodes, nodes.Values`nodeLabel, nodes.Values`dataReferences
    {
      && (forall a :: a in before ==> a in otherLabels && otherLabels[a] == before[a])
      && (forall a :: a in otherLabels && a !in before ==> a !in fileLabels && otherLabels[a] == ReferenceLabel(a))
      && forall a {:trigger AsksForLabel(a)} :: a in otherLabels && a !in before ==> AsksForLabel(a)
    }

    /** `assignOpcodeReferenceLabels`: gives every data reference a label, unless it has
        one or leads into another bank. A reference into the code always has a block. */
    method AssignOpcodeReferenceLabels(fileLabels: map<int, nat>, ghost before: seq<AsmNode?>, ghost s: seq<AsmNode>,
                                       ghost runs: seq<Run>)
      requires AttributesMatch() && Graph() && CodeLayout().Followed()
      requires forall a :: a in nodes ==> Filled(nodes[a])
      requires HasBlocks(blocks, before, nodes, s, runs, all) && blocks.Length == MEM_SIZE
      modifies this`otherLabels
      ensures OtherLabelsFrom(old(otherLabels), fileLabels)
      ensures ReferencesLabelled(fileLabels)
    {
      hide HasBlocks, Filled, MutualLinks, AttributesMatch, ReferenceLabel, AsksForLabel, Graph;
      for a := 0 to MEM_SIZE
        invariant OtherLabelsFrom(old(otherLabels), fileLabels)
        invariant forall b, r ::
                    b in nodes && b < a && r in nodes[b].dataReferences && !img.BankBorderPassed(nodes[b].slot, r) ==>
                    HasLabel(fileLabels, r)
      {
        if a in nodes {
          AssignReferencesOf(a, fileLabels, before, s, runs);
        }
      }
    }

    method AssignReferencesOf(a: int, fileLabels: map<int, nat>, ghost before: seq<AsmNode?>, ghost s: seq<AsmNode>,
                              ghost runs: seq<Run>)
      requires AttributesMatch() && Graph() && CodeLayout().Followed()
      requires a in nodes && forall a :: a in nodes ==> Filled(nodes[a])
      requires HasBlocks(blocks, before, nodes, s, runs, all) && blocks.Length == MEM_SIZE
      modifies this`otherLabels
      ensures OtherLabelsFrom(old(otherLabels), fileLabels)
      ensures forall r :: old(HasLabel(fileLabels, r)) ==> HasLabel(fileLabels, r)
      ensures forall r :: r in nodes[a].dataReferences && !img.BankBorderPassed(nodes[a].slot, r) ==>
                HasLabel(fileLabels, r)
    {
      hide HasBlocks, Filled, MutualLinks, AttributesMatch, Layout.Followed, ReferenceLabel, AsksForLabel, Graph;
      var refs := nodes[a].dataReferences;
      for i := 0 to |refs|
        invariant OtherLabelsFrom(old(otherLabels), fileLabels)
        invariant forall j :: 0 <= j < i && !img.BankBorderPassed(nodes[a].slot, refs[j]) ==>
                    HasLabel(fileLabels, refs[j])
      {
        var addr := refs[i];
        if img.BankBorderPassed(nodes[a].slot, addr) || HasLabel(fileLabels, addr) {
          continue;
        }
        ReferenceAsks(a, i, fileLabels);
        LabelReference(a, i, before, s, runs);
      }
    }

    lemma ReferenceAsks(a: int, i: nat, fileLabels: map<int, nat>)
      requires a in nodes && i < |nodes[a].dataReferences|
      requires !img.BankBorderPassed(nodes[a].slot, nodes[a].dataReferences[i])
      requires !HasLabel(fileLabels, nodes[a].dataReferences[i])
      ensures AsksForLabel(nodes[a].dataReferences[i])
    {
    }

    /** Makes up a label for one reference. */
    method LabelReference(a: int, i: nat, ghost before: seq<AsmNode?>, ghost s: seq<AsmNode>, ghost runs: seq<Run>)
      requires AttributesMatch() && Graph() && CodeLayout().Followed()
      requires a in nodes && (forall a :: a in nodes ==> Filled(nodes[a])) && i < |nodes[a].dataReferences|
      requires HasBlocks(blocks, before, nodes, s, runs, all) && blocks.Length == MEM_SIZE
      modifies this`otherLabels
      ensures var addr := nodes[a].dataReferences[i]; otherLabels == old(otherLabels)[addr := ReferenceLabel(addr)]
    {
      hide HasBlocks, Filled, MutualLinks, AttributesMatch, Layout.Followed, Graph;
      var addr := nodes[a].dataReferences[i];
      if HasAttribute(code, addr) {
        ReferenceHasBlock(a, i, before, s, runs);
        var blockNode := blocks[addr];
        assert blockNode != null;
        otherLabels := otherLabels[addr := CodeLabel(blockNode.nodeLabel, addr)];
      } else {
        otherLabels := otherLabels[addr := DataLabel(addr)];
      }
    }

    /** The label of an address: from the label files, of its node, or one of its own. */
    function LabelAt(fileLabels: map<int, nat>, r: int): Option<Label>
      reads this`nodes, nodes.Values`nodeLabel, this`otherLabels
    {
      if r in fileLabels then Some(Named(fileLabels[r]))
      else if r in nodes && nodes[r].nodeLabel.Some? then nodes[r].nodeLabel
      else if r in otherLabels then Some(otherLabels[r])
      else None
    }

    /** `getLabelFromSlotForAddress`: how an operand is shown. For an address inside of an
        instruction, that is the label of the instruction and the distance to it. */
    method GetLabelFromSlotForAddress(fileLabels: map<int, nat>, slot: int, addr: int)
      returns (text: Operand, ghost base: int)
      requires AttributesMatch()
      ensures if img.BankBorderPassed(slot, addr) then text == HexAddress(addr)
              else Adjusted(addr, base) && text == match LabelAt(fileLabels, base)
                                                   case Some(l) => LabelPlus(l, addr - base)
                                                   case None => LongAddressPlus(base, addr - base)
      ensures CodeLayout().Clean() && !img.BankBorderPassed(slot, addr) && HasAttribute(code, addr) ==>
                img.Covers(base, addr)
    {
      hide AttributesMatch, Layout.Clean;
      base := addr;
      // Check if no bank border.
      if img.BankBorderPassed(slot, addr) {
        return HexAddress(addr), base;
      }
      // Adjust the address in case it does not point to the start of an instruction.
      var adjAddr := addr;
      if HasAttribute(code, addr) {
        adjAddr := GetAddressForCodeFirst(addr);
      }
      base := adjAddr;
      var l := LabelAt(fileLabels, adjAddr);
      text := if l.Some? then LabelPlus(l.value, addr - adjAddr) else LongAddressPlus(adjAddr, addr - adjAddr);
    }

    /** How an operand is shown: with a label exactly if there is one for it, of which one in the
        label files comes first, and then that of a node. */
    lemma OperandIsLabelled(fileLabels: map<int, nat>, r: int)
      ensures HasLabel(fileLabels, r) <==> LabelAt(fileLabels, r).Some?
      ensures r in fileLabels ==> LabelAt(fileLabels, r) == Some(Named(fileLabels[r]))
      ensures r !in fileLabels && r in nodes && nodes[r].nodeLabel.Some? ==>
                LabelAt(fileLabels, r) == nodes[r].nodeLabel
      ensures LabelAt(fileLabels, r).Some? && r !in fileLabels && (r !in nodes || nodes[r].nodeLabel == None) ==>
                r in otherLabels && LabelAt(fileLabels, r) == Some(otherLabels[r])
    {
    }

    /** In the end, every data operand is shown with a label, unless it lies in another bank; and
        if it was made up, then in the block of the code in which it lies, or for the data. */
    lemma ReferenceIsShown(fileLabels: map<int, nat>, others: map<int, Label>, a: int, r: int)
      requires blocks.Length == MEM_SIZE && ReferencesLabelled(fileLabels) && OtherLabelsFrom(others, fileLabels)
      requires a in nodes && r in nodes[a].dataReferences && !img.BankBorderPassed(nodes[a].slot, r)
      ensures LabelAt(fileLabels, r).Some?
      ensures r !in fileLabels && r !in others && (r !in nodes || nodes[r].nodeLabel == None) ==>
                match LabelAt(fileLabels, r).value
                case CodeLabel(block, addr) =>
                  addr == r && HasAttribute(code, r) && blocks[r] != null ==> block == blocks[r].nodeLabel
                case DataLabel(addr) => addr == r && !HasAttribute(code, r)
                case _ => false
    {
      OperandIsLabelled(fileLabels, r);
    }

    /** A data reference into the code has a block node, in every run. */
    lemma ReferenceHasBlock(a: int, i: nat, before: seq<AsmNode?>, s: seq<AsmNode>, runs: seq<Run>)
      requires AttributesMatch() && Graph() && CodeLayout().Followed()
      requires forall a :: a in nodes ==> Filled(nodes[a])
      requires HasBlocks(blocks, before, nodes, s, runs, all)
      requires a in nodes && i < |nodes[a].dataReferences| && HasAttribute(code, nodes[a].dataReferences[i])
      ensures blocks.Length == MEM_SIZE && blocks[nodes[a].dataReferences[i]] != null
      ensures blocks[nodes[a].dataReferences[i]] in s
    {
      hide Filled, MutualLinks, HasBlocks;
      var l, r := CodeLayout(), nodes[a].dataReferences[i];
      CodeReferenceIsFirst(a, i);
      assert l.HasOwner(r);
      var n :| l.Owns(n, r);
      l.TrailBounds(n, r);
      FilledLength(n);
      BlocksInMemory(blocks, before, nodes, s, runs, all);
      NodeHasBlock(blocks, before, nodes, s, runs, all, n, r);
    }

    lemma FilledLength(n: int)
      requires img.Valid() && NodeMap() && n in nodes && Filled(nodes[n])
      ensures nodes[n].length == img.EndOfLast(CodeLayout().Last(n)) - n
    {
    }

    lemma CodeReferenceIsFirst(a: int, i: nat)
      requires AttributesMatch() && a in nodes && img.Valid() && Filled(nodes[a])
      requires i < |nodes[a].dataReferences| && HasAttribute(code, nodes[a].dataReferences[i])
      ensures nodes[a].dataReferences[i] in codeFirst
    {
      var values := CodeLayout().DataLabels(CodeLayout().Trail(nodes[a].start, nodes[a].slot));
      assert Adjusted(values[i], nodes[a].dataReferences[i]);
    }
  }
}
