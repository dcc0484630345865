# Verification of the DeZog debugger core

DeZog debugs Z80 programs. This project models the algorithms below its user interface
in Dafny and proves what they promise.

- **Smart disassembler.** `getFlowGraph` turns a 64K image into a control flow graph. A
  worklist pass marks code and creates empty nodes, a second pass fills and links them,
  and further passes partition them into blocks and place labels.
- **Reverse debugging.** A lite history of the instructions stepped over, and the full
  history of an emulator, which is fetched bit by bit while a virtual call stack is
  carried along.
- **Call stack.** The frames that are guessed from the words on the machine stack.
- **Rendering.** Which line of the disassembly text shows which addresses, for
  breakpoints.
- **Memory dumps.** Their difference, and the search for a text that is known only up to
  a constant.
- **Mutex** and **MemBuffer.** An asynchronous lock, and a buffer for serialisation.

`dafny verify dfyconfig.toml` checks everything.

## Structure

| file | content |
|---|---|
| Z80Image.dfy | memory as a decoder, slots and banks, skipped bytes; control flow and reachability |
| Flow.dfy, FlowTheorems.dfy | the invariant of the first pass, and what it means at the end |
| NodeLayout.dfy | nodes as runs of instructions on values |
| AsmNode.dfy | node objects and their links |
| SmartDisassembler.dfy | the class with its passes, in place |
| FlowExamples.dfy | images on which the analysis shows its limits |
| SubroutineMarks.dfy, Blocks.dfy, NodeLabels.dfy | marks of subroutines; blocks of nodes; their labels |
| Subroutines.dfy | the subroutines in reach of a node, and how deep the calls go |
| Z80Stack.dfy, ReverseStack.dfy | how instructions move SP, and the virtual stack on values |
| CallStack.dfy, StackContents.dfy, CpuHistory.dfy | frame objects, the words on them on values, and the virtual stack in place |
| CallStackFromMemory.dfy | the call stack of the paused program |
| TimeTravel.dfy, TimeRuns.dfy | stepping through a history on values, one step and many |
| StepHistory.dfy, ReverseDebugging.dfy | the lite history and the history of the CPU as classes |
| LineIndex.dfy, RenderText.dfy | line and address indexes, and the renderer that fills them |
| Listing.dfy | the text of a flow graph, and breakpoints in it |
| MemoryDump.dfy, DeltaSearch.dfy | difference and search |
| Mutex.dfy, MemBuffer.dfy | the lock as class and step system; the buffer |
| Options.dfy, Bytes.dfy, Sequences.dfy, Sorting.dfy | helpers |

Classes follow the source: their methods update fields in place and are proved against
functions on values, about which the theorems speak. The decoder of the Z80 is a
parameter: it gives every address a length from 1 to 4, flags and a value. The opcode
tests of reverse debugging are written out and compared with the Call and Return, Exchange
and 16 bit load groups of the Z80 CPU User Manual (UM0080).

The disassembler is modelled for any assignment of memory, any paging of the slots, any
skipped bytes behind calls that do not wrap around the end of memory, and any sequence of
start addresses. Reading beyond the 64K finds no attribute, as in the source. Where a
theorem needs more it says so, with conditions on the image and the start addresses:

- `RequestsAssigned`: no flow leads to memory that was not fetched, which holds whenever
  all memory was fetched. Without ambiguity this alone makes the layout `Clean`, so that
  the nodes partition the code. `InsidesAssigned` is weaker: such memory does not lie
  inside of a reachable instruction.
- `BordersAgree`: it does not matter from which slot an instruction is reached. This holds
  if no reachable line leaves the paged slot in which it started (`LinesStayAgree`), and
  therefore for all starts in unpaged memory (`UnpagedLinesStay`). Exact reachability
  needs it.

## What the proofs found

- Whether an ambiguity is reported does not depend on the order of the analysis: with
  `BordersAgree` and `InsidesAssigned` it is reported if and only if two reachable
  instructions overlap.
- Where a line leaves its paged slot, reachable code can be missed without a comment
  (`PagedCodeIsMissed`).
- Node ranges can overlap without any comment: with `BordersAgree` and `RequestsAssigned`,
  and without reachable overlaps, exactly if a byte that is skipped behind a call is
  reachable code as well (`SkippedCodeIsShared` is such an image).
- Skips that wrap around the end of memory are followed by the first pass only
  (`PassesAgreeIff`).
- `markSubroutines` depends on the order of the node map. A called node that is marked
  before the mark of its RET arrives does not hand it on, so that nodes in front of it stay
  unmarked (`CalledNodeBlocks`); `NothingIsMissedIff` says exactly when none do.
- A line that runs over a bank border into a node is linked with that node, while any other
  link across a border leads to an end node of its own.
- Stepping forward over LD SP,(nnnn) adds an interrupt frame, because a long PC is compared
  with a 64K one, unless the instruction ends at the very end of the 64K and bank 0 follows.
  The virtual stack follows SP exactly if that has not happened since the present.
- An expected SP of 0 is taken for an unknown one.
- Stepping over the call of a recursive routine stops at an inner return
  (`StepOverStopsInside`); `StepOverIsLevelIff` says when SP is back.
- A PUSH on the way forward puts its word on the wrong end of the frame, so that stepping
  back over it takes another word off (`PushUndoneIff`).
- Stepping back over the RET of a routine that an RST has called names the frame wrongly,
  because the RST is looked for where a CALL would be (`RstIsNamedIff`). That frame also
  starts one word higher than the one that stepping forward creates
  (`StartAddressesDiffer`).
- For an odd depth of the stack all words are read one byte off.
- After a timeout the handle of the mutex stays set, so that a late `unlock` does not
  throw, and two clients can hold the mutex. The late `unlock` takes the lock from a client
  whose time is not out (`LateUnlockOusts`).
- `printData` takes one reference too many off its stack when references before the area
  are left over, such as those into code that is shown already. At most one reference is
  lost then, and `PrintsIff` says which; `ReferenceIsLost` is an input.
- A buffer of length 0 is a dry run.

## Model

| member | source | states |
|---|---|---|
| FlowTheorems.FlowIsReachability | src/disassembler/smartdisassembler.ts:288-461 | as long as it does not matter from which slot an instruction is reached, which holds when no line leaves its paged slot, and so for all starts in unpaged memory: after any run of the first pass that recorded no ambiguity comment, the CODE_FIRST addresses are exactly those that some control flow path from a start address reaches: falling through, return addresses behind skipped bytes, and branch targets, never over a bank border |
| FlowTheorems.AmbiguityIffOverlap | src/disassembler/smartdisassembler.ts:359-376 | under that condition, and if no flow leads to unfetched memory inside of a reachable instruction, an ambiguity comment is recorded if and only if two instructions that control flow can reach overlap; whether there is one does not depend on the order in which the worklist is processed |
| FlowTheorems.CommentMeansConflict | src/disassembler/smartdisassembler.ts:359-424 | for all images and starts: an ambiguity comment means that two reachable instructions overlap, or that a flow leads to unfetched memory inside of a reachable instruction |
| FlowExamples.PagedCodeIsMissed | src/disassembler/smartdisassembler.ts:400-449 | that condition is needed: in an image where a line leaves its paged slot, a finished run without any comment misses reachable code |
| FlowTheorems.AnalysedIsReachable | src/disassembler/smartdisassembler.ts:349-461 | in every run, ambiguous or not, whatever becomes CODE_FIRST is reachable |
| FlowTheorems.OverlapIsReported | src/disassembler/smartdisassembler.ts:361-403 | in every run, of two overlapping instructions the one behind was analysed first, and the flow stopped with a comment at the other one |
| FlowTheorems.LineContinuesOrJoinsNode | src/disassembler/smartdisassembler.ts:388-449 | in every run, a straight line ends because of analysed code only where a CODE_FIRST instruction starts, and that is either the next instruction analysed or a node |
| Z80Image.Image.StepsAreLeads | src/disassembler/smartdisassembler.ts:398-449 | where the flow goes in one step: exactly the branch target, the return address behind the skipped bytes, or the next instruction, as far as it is accessible |
| Flow.VisitKeepsInv | src/disassembler/smartdisassembler.ts:354-449 | the invariant of the first pass, which relates attributes, nodes, comments and pending flows, is kept by the analysis of any instruction |
| Flow.SettleKeepsInv | src/disassembler/smartdisassembler.ts:412-461 | the invariant is kept when an entry of the worklist is finished, be it with a node, a refusal or unassigned memory |
| Flow.JoinsAtNode | src/disassembler/smartdisassembler.ts:388-396 | the comment "Code has been already analyzed. Everything fine": what has been analysed before and is met by a straight line is the start of a node |
| SmartDisassembly.SmartDisassembler.SearchAddrWithAttribute | src/disassembler/core/memory.ts:148-158 | finds the first address with the attribute in the range, and none exactly if there is none; outside of the 64K nothing carries an attribute |
| SmartDisassembly.SmartDisassembler.VisitInstruction | src/disassembler/smartdisassembler.ts:354-383 | marks the instruction in place and reports an overlap with code analysed before |
| SmartDisassembly.SmartDisassembler.FindSuccessors | src/disassembler/smartdisassembler.ts:398-437 | the addresses that are queued are exactly the branch targets, and the return addresses moved behind the skipped bytes, of the instruction; and the line goes on exactly if the instruction neither stops nor leaves the bank |
| SmartDisassembly.SmartDisassembler.FollowFlow | src/disassembler/smartdisassembler.ts:349-449 | the inner loop terminates, keeps the invariant, and leaves no flow pending but the queued addresses |
| SmartDisassembly.SmartDisassembler.CreateQueuedNode | src/disassembler/smartdisassembler.ts:400-461 | one entry of the worklist is settled for good; either the worklist does not grow, or the node map does |
| SmartDisassembly.SmartDisassembler.CreateNodeForAddress | src/disassembler/smartdisassembler.ts:349-461 | the growing worklist is emptied in finite time, and every flow from the address has then been dealt with |
| SmartDisassembly.SmartDisassembler.CreateNodes | src/disassembler/smartdisassembler.ts:288-312 | all start addresses are analysed, refused or without memory, and the finished invariant holds, from which the theorems above follow |
| SmartDisassembly.SmartDisassembler.CreateNodesForLabels | src/disassembler/smartdisassembler.ts:470-490 | a label at a CODE_FIRST address gets a node of its own that carries its text, any other one is kept aside with its text; the last one for an address counts; no node is lost or replaced |
| SmartDisassembly.SmartDisassembler.GetAddressForCodeFirst | src/disassembler/smartdisassembler.ts:327-336 | the search backwards from any CODE address ends at the nearest CODE_FIRST within one instruction length; without overlaps that instruction covers the address |
| NodeLayout.Layout.NodesPartitionCode | src/disassembler/smartdisassembler.ts:520-660 | in a clean layout, that is after any run without an ambiguity comment in which no flow leads to unfetched memory, every CODE_FIRST instruction lies in exactly one node, and nodes hold nothing else |
| NodeLayout.Layout.OneOwner | src/disassembler/smartdisassembler.ts:520-660 | in a clean layout no instruction lies in two nodes |
| NodeLayout.Layout.NodesAreApart | src/disassembler/smartdisassembler.ts:618-624 | in a clean layout the instructions of a node end before the next node starts |
| NodeLayout.Layout.NodesDisjointIff | src/disassembler/smartdisassembler.ts:550-575 | in a clean layout the byte ranges of the nodes, with the skipped bytes, are pairwise disjoint if and only if no byte that is skipped behind a call is also code |
| NodeLayout.NodesDisjointIffUnreachable | src/disassembler/smartdisassembler.ts:550-575 | the same as a property of the image and the starts alone: when no reachable instructions overlap, no flow leads to unfetched memory and it does not matter from which slot an instruction is reached, the node ranges are disjoint if and only if no reachable instruction has a byte that is skipped behind a reachable call |
| FlowExamples.SkippedCodeIsShared | src/disassembler/smartdisassembler.ts:550-575 | an image on which every run reports nothing, and yet two nodes share a byte; a finished run on it is given as well |
| FlowExamples.PassesAgreeIff | src/disassembler/smartdisassembler.ts:412-424 | for skips that wrap around the end of memory, which the other results exclude: after any number of skips both passes are at the same address if and only if the second one is still in memory; otherwise the first one asks for a node at the start of memory that the second one (lines 560-575) does not link |
| NodeLayout.DoneIsFollowed | src/disassembler/smartdisassembler.ts:349-490 | for all start addresses, paged or not, and in every run, ambiguous or not: every CODE_FIRST instruction lies in a node, whatever nodes the labels add |
| NodeLayout.AnalysedHasOwner | src/disassembler/smartdisassembler.ts:520-660 | the node in which an instruction lies sees the same bank borders ahead as the node from which the instruction was analysed, because every slot is one range of addresses |
| NodeLayout.DoneIsClean | src/disassembler/smartdisassembler.ts:349-490 | for all start addresses, paged or not: without an ambiguity comment the layout of the code has no overlaps, the nodes consist of analysed code and all their targets have nodes, as long as no flow leads to memory that was not fetched |
| NodeLayout.TrailIsTraced | src/disassembler/smartdisassembler.ts:520-660 | the reason: all instructions of a node have been analysed one after the other, each from a node that sees the same bank borders ahead |
| NodeLayout.Layout.TrailIs | src/disassembler/smartdisassembler.ts:520-660 | which instructions belong to a node: exactly the straight line from its start up to the first one that branches or stops, or behind which the memory, the bank or the node ends, or inside of which another one starts |
| NodeLayout.TargetsHaveNodes | src/disassembler/smartdisassembler.ts:686-719 | without an ambiguity comment every target of a node has a node, except behind a bank border, whatever the slots through which its line runs |
| AsmNodes.LinkBranch | src/disassembler/smartdisassembler.ts:577-593 | keeps successors and predecessors, callee and callers mutual inverses, counted with multiplicity |
| AsmNodes.LinkCall | src/disassembler/smartdisassembler.ts:585-588 | keeps the links mutual inverses when a call is linked |
| SmartDisassembly.SmartDisassembler.GetNodeForFill | src/disassembler/smartdisassembler.ts:686-719 | returns the node at the target, or else, always across a bank border, a new end node outside of the map, together with the comment that says why; the links stay mutual inverses |
| SmartDisassembly.SmartDisassembler.FillBranch | src/disassembler/smartdisassembler.ts:552-601 | the successors of a node that ends with a branch or call, in their order, its callee, and the pseudo instructions of the skipped bytes |
| SmartDisassembly.SmartDisassembler.FillNode | src/disassembler/smartdisassembler.ts:520-660 | the node gets exactly the instructions of its straight line, its length, stop and subroutine marks, data references that point to starts of instructions, and the links that its last instruction asks for |
| SmartDisassembly.SmartDisassembler.FillNodes | src/disassembler/smartdisassembler.ts:498-503 | all nodes are filled, the links of the whole graph are mutual inverses, and exactly the comments about the links of each node are added |
| SmartDisassembly.SmartDisassembler.LinksAreFlow | src/disassembler/smartdisassembler.ts:546-660 | the edges of the graph are the control flow, in every run: a node is linked with exactly the addresses to which its last instruction may lead, unless that stops or the line ends because of an overlap |
| SmartDisassembly.SmartDisassembler.CleanLinksAreFlow | src/disassembler/smartdisassembler.ts:546-660 | without ambiguities therefore exactly with these; the target of a jump is a successor, that of a call is the callee, and a successor only if it is also the return address |
| SmartDisassembly.SmartDisassembler.LinksAreSteps | src/disassembler/smartdisassembler.ts:546-660 | without ambiguities the links between nodes of the map are exactly the steps of the flow from the last instruction, and a line that runs over a bank border into a node |
| SmartDisassembly.SmartDisassembler.ReferencesAreFlow | src/disassembler/smartdisassembler.ts:546-660 | without ambiguities a node is called, and entered, exactly by the nodes whose last instructions say so |
| SmartDisassembly.SmartDisassembler.CommentsTellLinks | src/disassembler/smartdisassembler.ts:686-719 | the comments of the second pass are exactly about the links that lead into another bank, to code without a node, or to memory that was not fetched |
| SmartDisassembly.SmartDisassembler.SpreadsIff | src/disassembler/smartdisassembler.ts:632-648 | an instruction is reported to spread over banks exactly if the line leaves it for a paged slot in which its last byte already lies |
| SmartDisassembly.SmartDisassembler.DataReferenceIff | src/disassembler/smartdisassembler.ts:527-543 | the data references of a node are exactly the data operands of its instructions, moved to the start of an instruction if they lie in the code |
| SmartDisassembly.SmartDisassembler.ReturningIff | src/disassembler/smartdisassembler.ts:596-606 | the marks of subroutines start at exactly the nodes with a RET or RET cc among their instructions |
| SmartDisassembly.SmartDisassembler.GetFlowGraph | src/disassembler/smartdisassembler.ts:254-281 | the passes one after the other, for all start addresses: the code and the comments come from the first two, all nodes are filled, the links are mutual, subroutines are marked, every node is registered with a block, the labels of the list are on their nodes or kept aside, and nodes and references have been labelled, without that an assert fails |
| SmartDisassembly.SmartDisassembler.ListLabelIsPlaced | src/disassembler/smartdisassembler.ts:470-490 | in the end, a label of the list that is the last one for its address is the label of the node at that address, if it is CODE_FIRST, and the kept label of the address otherwise |
| SmartDisassembly.SmartDisassembler.CodeIsClean | src/disassembler/smartdisassembler.ts:254-281 | after `getFlowGraph`, for all start addresses: without an ambiguity comment and if no flow leads to unfetched memory, every CODE_FIRST instruction lies in exactly one node and nodes hold nothing else |
| SmartDisassembly.SmartDisassembler.CommentsAreClean | src/disassembler/smartdisassembler.ts:254-281 | for all start addresses, if no flow leads to unfetched memory: the second pass adds an ambiguity only if the first one found one; otherwise all comments are about bank borders |
| SmartDisassembly.SmartDisassembler.MarkNodes | src/disassembler/smartdisassembler.ts:727-743 | the marks that `markSubroutines` leaves: the nodes with a RET, the called nodes that are still unmarked when the map yields them, and what flows to the former without passing the latter |
| SmartDisassembly.SmartDisassembler.CommentsAreExact | src/disassembler/smartdisassembler.ts:254-281 | if no flow leads to unfetched memory and it does not matter from which slot an instruction is reached: of all comments in the end, one is about an ambiguity if and only if two reachable instructions overlap; if none do, all comments are about bank borders |
| SmartDisassembly.SmartDisassembler.CodeLiesInNodes | src/disassembler/smartdisassembler.ts:254-281 | after `getFlowGraph`, for all start addresses and in every run, every CODE_FIRST instruction lies in a node of the map |
| SmartDisassembly.SmartDisassembler.CodeIsExact | src/disassembler/smartdisassembler.ts:254-281 | after `getFlowGraph`, if it does not matter from which slot an instruction is reached: the code is exactly the reachable code unless an ambiguity is reported; and one is reported exactly for reachable overlaps, if no flow leads to unfetched memory inside of a reachable instruction |
| SmartDisassembly.SmartDisassembler.GraphIsReal | src/disassembler/smartdisassembler.ts:686-719 | for all start addresses: without an ambiguity comment and if no flow leads to unfetched memory, no node of the same bank is ever invented: all links lead to nodes of the map or into another bank |
| SmartDisassembly.SmartDisassembler.LinksAreReal | src/disassembler/smartdisassembler.ts:686-719 | the same for the links of one node |
| SubroutineMarks.MarkSubroutines | src/disassembler/smartdisassembler.ts:727-743 | for any graph and any order of the nodes: exactly which nodes are marked in the end, and which called nodes are marked early, so that their marks are not handed on |
| SubroutineMarks.MarkPredecessors | src/disassembler/core/asmnode.ts:211-218 | the recursion terminates on any graph, and marks exactly what flows to the node over nodes that are not marked yet |
| SubroutineMarks.MarksAreBounded | src/disassembler/smartdisassembler.ts:722-743 | whatever the order: what is marked is called or flows to a RET; what is called, has a RET, or flows to one over nodes that are not called, is marked |
| SubroutineMarks.NothingIsMissedIff | src/disassembler/smartdisassembler.ts:722-743 | the promise "mark all nodes that end in a node with RET" is kept if and only if the called nodes that were marked early and flow to a RET have no unmarked predecessors |
| SubroutineMarks.NothingIsMissedInOrder | src/disassembler/smartdisassembler.ts:722-743 | it is kept if the map yields the nodes with a RET first; then exactly the called nodes and those that flow to a RET are marked |
| SubroutineMarks.CalledNodeBlocks | src/disassembler/smartdisassembler.ts:727-743 | a graph and an order for which the promise is broken: a node that flows to a RET over a called one is not marked |
| Blocks.GetBranches | src/disassembler/core/asmnode.ts:89-103 | collects exactly the nodes that can be reached over branches, each one once |
| Blocks.PartitionBlocks | src/disassembler/smartdisassembler.ts:753-778 | partitions the sorted nodes into runs, and registers for every address the root of the last run that covers it |
| Blocks.BlockIsGapless | src/disassembler/smartdisassembler.ts:753-778 | a block is one contiguous run of whole nodes |
| Blocks.BlockGoesOnAtNode | src/disassembler/smartdisassembler.ts:835-865 | behind a node of a block that is not its last one, the next node of the same block starts |
| Blocks.DisjointLastCovering | src/disassembler/smartdisassembler.ts:753-778 | for disjoint nodes an address belongs to the block of the node that covers it |
| NodeLabels.SameBlockIff | src/disassembler/smartdisassembler.ts:753-778 | two nodes that follow one another belong to the same block if and only if they are adjacent, the second one is not called, and the first node of the block reaches it over branches |
| NodeLabels.VisitBlock | src/disassembler/smartdisassembler.ts:835-867 | from the guard `blocks[addr64k] == node` alone: the asserts of the walk over a block never fail, the walk comes to exactly the nodes of the block that are registered without a gap, and collects those of them that need a label, loops apart from the others |
| NodeLabels.IsLoopRoot | src/disassembler/core/asmnode.ts:110-133 | finds out exactly whether branches lead from the node back to itself over nodes that are not in front of it |
| NodeLabels.ReferencedIff | src/disassembler/core/asmnode.ts:184-205 | a node is referenced if and only if some node calls it or branches to it |
| NodeLabels.OtherReferenceIff | src/disassembler/core/asmnode.ts:184-205 | there are other references than the natural flow if and only if some node calls it, or two branches lead to it, or one from a node that does not end right before it or that stops |
| NodeLabels.AssignLocalLabels | src/disassembler/smartdisassembler.ts:835-902 | the nodes of the block that need a label get one, numbered in memory order, a single loop without a number, or global ones if the block has no label; no other label changes |
| NodeLabels.LocalLabelsCount | src/disassembler/smartdisassembler.ts:868-902 | the local labels of a block count 1, 2, 3 in memory order, loops apart from the others, and a single loop has no number |
| NodeLabels.AssignNodeLabels | src/disassembler/smartdisassembler.ts:786-822 | labels that exist stay; the first node of a block gets a label if there is any reference to it, with the prefix for subroutines, RST addresses or other code; the others of the block if there is a reference other than the natural flow |
| NodeLabels.PrefixIs | src/disassembler/smartdisassembler.ts:802-817 | SUB is the prefix of subroutines, RST that of subroutines at the eight RST addresses, LBL that of other code |
| SmartDisassembly.SmartDisassembler.SubroutineLabels | src/disassembler/smartdisassembler.ts:722-822 | a made up label is SUB or RST only for the first node of a block, and only if it is called or flows to a RET |
| NodeLabels.Plan.LabelsAreUnique | src/disassembler/smartdisassembler.ts:786-902 | no two nodes end up with the same label, unless two have the same one in the label files |
| SmartDisassembly.SmartDisassembler.LabelledIffReferenced | src/disassembler/smartdisassembler.ts:786-902 | for nodes with disjoint byte ranges: exactly those have a label in the end that have one in the list, or that some node calls, or to which some node branches; except for the first node of a block, a single branch from the node right before does not count unless that stops |
| SmartDisassembly.SmartDisassembler.AssignOpcodeReferenceLabels | src/disassembler/smartdisassembler.ts:916-966 | every data reference of a node to the same bank ends up with a label; labels are made up only for these, and are the local code label in the block of the address, or the data label of the address; none is replaced |
| SmartDisassembly.SmartDisassembler.GetLabelFromSlotForAddress | src/disassembler/smartdisassembler.ts:980-1029 | an operand is shown as the label of the nearest CODE_FIRST address at or before it, and the distance to it; without overlaps that instruction covers it; across a bank border as a plain number |
| SmartDisassembly.SmartDisassembler.OperandIsLabelled | src/disassembler/smartdisassembler.ts:1001-1025 | an operand is shown with a label exactly if there is one for its address; one in the label files comes first, then that of a node |
| SmartDisassembly.SmartDisassembler.ReferenceIsShown | src/disassembler/smartdisassembler.ts:916-1025 | in the end every data operand to the same bank is shown with a label, and a made up one is that of its block or of the data |
| SmartDisassembly.SmartDisassembler.ReferenceHasBlock | src/disassembler/smartdisassembler.ts:916-941 | the assert that a reference into the code has a block node never fails, for all start addresses and in every run |
| SmartDisassembly.SmartDisassembler.CodeReferenceIsFirst | src/disassembler/smartdisassembler.ts:527-543 | a data reference into the code has been moved to the start of an instruction |
| Subroutines.NewSubroutine | src/disassembler/core/subroutine.ts:32-82 | collects every node that is reachable over branches exactly once, the sum of their lengths, and what they call |
| Subroutines.SizeIsByteCount | src/disassembler/core/subroutine.ts:73-73 | the size of a subroutine is the number of its bytes, if its nodes do not overlap |
| Subroutines.GetSubroutinesRecursive | src/disassembler/smartdisassembler.ts:1087-1101 | terminates on any call graph, recursive ones included; every node of the map has its own subroutine, no old entry changes, every new one is at most the returned number of calls away, and there is a chain of as many calls |
| Subroutines.GetSubroutinesFor | src/disassembler/smartdisassembler.ts:1070-1079 | returns exactly the subroutines that calls from the start nodes reach, each under its own node and within the returned depth; a chain of as many calls starts at one of them |
| Z80Stack.OpcodeTestsAreExact | src/remotes/cpuhistory.ts:243-420 | the bit tests for executed CALL, RST, RET, PUSH and POP agree with the opcode table of the instruction set for all opcodes and flags, and the pushed value is that of the register in the table |
| Z80Stack.CallOpcodeIff | src/remotes/cpuhistory.ts:243-382 | the opcodes that are taken for a CALL are exactly those that are one under some flags |
| ReverseStack.ExpectedSpIsExact | src/remotes/cpuhistory.ts:448-505 | the stack pointer that is expected after an instruction is the one that the instruction set gives |
| ReverseStack.BackFollowsIff | src/remotes/cpuhistory.ts:577-706 | when a step back changes the depth of the virtual stack by exactly half the change of SP: after a RET if SP had moved by two or the frame taken for an interrupt holds just the missing words, and otherwise if SP moved by an even amount and there are enough words |
| ReverseStack.RemoveTakesFromTop | src/remotes/cpuhistory.ts:657-676 | words and frames are taken from the top only: below the last frame that is left, nothing changes |
| ReverseStack.DepthBack | src/remotes/cpuhistory.ts:577-706 | the depth after a step back over any two lines, in numbers |
| ReverseStack.ForwardFollowsIff | src/remotes/cpuhistory.ts:763-901 | for any two lines, when a step forward changes the depth by exactly half the change of SP: if SP is what the instruction, or an interrupt behind it, makes it; with the exceptions of too few words, an odd number of bytes and an expected SP of 0 |
| ReverseStack.DepthForward | src/remotes/cpuhistory.ts:763-901 | the depth after a step forward over any two lines, in numbers |
| ReverseStack.InterruptFoundIff | src/remotes/cpuhistory.ts:826-850 | an interrupt is found if and only if SP is one word below what the instruction set makes it, or, behind LD SP,(nnnn), the long PC is not that of the next instruction |
| ReverseStack.LoadSpIndirectIsOff | src/remotes/cpuhistory.ts:826-850 | behind LD SP,(nnnn) an interrupt is found exactly if the long address is not the 64K one behind the instruction, which fails only at the end of memory, and the stack then is one frame too deep |
| ReverseStack.BackStepAccounts | src/remotes/cpuhistory.ts:577-706 | a step back keeps the frames in step with SP |
| ReverseStack.ForwardStepAccounts | src/remotes/cpuhistory.ts:763-901 | a step forward keeps the frames in step with SP |
| ReverseStack.WalkDrifts | src/remotes/cpuhistory.ts:577-901 | after any sequence of steps back and forward through a regular history, frames and pushed words account for the words between SP and the top of the stack, and for one more for each time the walk went forward over an LD SP,(nnnn) since the present |
| ReverseStack.WalkTracksSpIff | src/remotes/cpuhistory.ts:577-901 | they account for exactly these words if and only if the walk has not gone forward over an LD SP,(nnnn) since the present |
| CpuHistory.ReverseDebugStack.HandleBack | src/remotes/cpuhistory.ts:577-706 | changes the frames in place as the step back asks for: the frames that stay are a prefix of the old ones with their names, start addresses and other PCs; the words on each; a fresh frame with name and start address for the routine that a RET returns from; the PC, and the popped word |
| CpuHistory.ReverseDebugStack.HandleForward | src/remotes/cpuhistory.ts:763-901 | changes the frames in place as the step forward asks for: the frames that stay are a prefix of the old ones with their names, start addresses and other PCs; the words on each, with the pushed one; fresh frames with name and start address for routines entered by CALL or RST and for interrupts; and the PC |
| StackContents.PushUndoneIff | src/remotes/cpuhistory.ts:657-818 | forward over a PUSH and back restores the words if and only if all words of the frame are the same as the pushed one: a PUSH puts its word on the other end of the frame than a step back takes it from |
| StackContents.PushPutsWord | src/remotes/cpuhistory.ts:811-818 | what a PUSH adds to the last frame, with or without an interrupt behind it: the word of the register that the instruction set names |
| StackContents.PushPutsContent | src/remotes/cpuhistory.ts:811-818 | that word is what the history shows at SP behind the PUSH |
| StackContents.CallUndone | src/remotes/cpuhistory.ts:657-676 | forward over a CALL or RST and back restores the words |
| StackContents.PopUndoneIff | src/remotes/cpuhistory.ts:648-705 | forward over a POP and back restores the words if and only if the popped word is the recorded one |
| CpuHistory.ReverseDebugStack.RemoveWords | src/remotes/cpuhistory.ts:657-676 | takes words from the top: those of a frame, then the frame; the last frame stays if wanted, and what is left is unchanged |
| CpuHistory.CalleeIsCalled | src/remotes/cpuhistory.ts:596-630 | back over a RET to behind a CALL, the frame gets the name of the routine that the CALL in memory calls |
| CpuHistory.RstIsNamedIff | src/remotes/cpuhistory.ts:596-616 | behind an RST the byte is looked for two bytes too early: the name is right if and only if the same RST happens to be there |
| CpuHistory.StartAddressesDiffer | src/remotes/cpuhistory.ts:640-643 | the frame of a routine starts one word higher when it is entered back over its RET than when it is entered forward (lines 783-800), where it starts at the first word that the routine pushes |
| TimeTravel.ReachableStatesAreConsistent | src/remotes/stephistory.ts:121-145 | in every reachable state the decorated addresses are the PCs of the entries stepped over, and the register cache is the current entry |
| TimeTravel.ForthUndoesBack | src/remotes/stephistory.ts:501-535 | time travel undoes itself: after n steps back, k steps forward give the same index, registers and decoration as n - k steps back; all n of them give the present registers |
| TimeTravel.BackTimesAt | src/remotes/stephistory.ts:501-516 | where n steps back from the present lead to |
| TimeTravel.HistoryIsRecent | src/remotes/stephistory.ts:161-168 | in every run the history consists of the last lines that have been recorded, the youngest one first, and of all of them as long as there are not too many |
| TimeTravel.StepsBackShow | src/remotes/stephistory.ts:161-180 | after any run, k steps back from the present show the k-th last line that has been recorded |
| StepHistory.StepHistoryClass.RevDbgPrev | src/remotes/stephistory.ts:501-516 | one entry back, with the registers and the decoration; nothing but the remembered present changes at the oldest entry |
| StepHistory.StepHistoryClass.RevDbgNext | src/remotes/stephistory.ts:523-535 | one entry forward, at last to the present registers |
| StepHistory.StepHistoryClass.Record | src/remotes/stephistory.ts:161-180 | the new entry and its call stack come first, and the rest of both lists is a prefix of what it was, which lacks the last element only if there is no room; in every state entry and call stack at an index are those that were recorded together |
| StepHistory.StepHistoryClass.Continue | src/remotes/stephistory.ts:544-587 | stops at the first entry on the way at which a breakpoint fires, and otherwise at the present with the registers of the emulator; no entry with a breakpoint is passed |
| StepHistory.StepHistoryClass.ReverseContinue | src/remotes/stephistory.ts:596-624 | stops at the first older entry at which a breakpoint fires, and otherwise at the oldest one |
| StepHistory.StopsAtPc | src/remotes/stephistory.ts:438-470 | as long as the call stacks were recorded at the PCs of their entries, breakpoints stop exactly where one fires at the PC of an entry |
| TimeRuns.WentForthMore | src/remotes/stephistory.ts:559-578 | one more entry forward keeps what a run has promised, and says when it ends |
| TimeRuns.WentBackMore | src/remotes/stephistory.ts:602-616 | one more entry back keeps what a run has promised, and says when it ends |
| ReverseDebugging.CpuHistoryClass.GetPrevRegisters | src/remotes/cpuhistory.ts:206-233 | whatever was fetched before, this is the next entry of the emulator, and none exactly past the maximum size or the end of its history; the buffer stays a prefix of that history |
| ReverseDebugging.CpuHistoryClass.GetHistorySpotFromRemote | src/remotes/cpuhistory.ts:187-198 | the buffer is the part of the history that is shown at once |
| ReverseDebugging.CpuHistoryClass.PrepareReverseDbgStack | src/remotes/cpuhistory.ts:548-553 | outside of step back mode the virtual stack starts as the call stack of the emulator |
| ReverseDebugging.CpuHistoryClass.StepBack | src/remotes/cpuhistory.ts:713-734 | one entry of the emulator back, while the virtual stack is what the moves so far make of it and shows the PC of the entry |
| ReverseDebugging.CpuHistoryClass.StepInto | src/remotes/cpuhistory.ts:1114-1142 | one entry forward; at the present the real registers and the real call stack are there again |
| ReverseDebugging.CpuHistoryClass.Continue | src/remotes/cpuhistory.ts:910-961 | goes forward to the first entry with a breakpoint, or to the present |
| ReverseDebugging.CpuHistoryClass.ReverseContinue | src/remotes/cpuhistory.ts:969-1012 | goes back to the first entry with a breakpoint, or to the oldest one |
| ReverseDebugging.CpuHistoryClass.StepOver | src/remotes/cpuhistory.ts:1034-1106 | stops at the first entry behind the CALL or RST, or at one with a breakpoint, or at the present; after one entry for other instructions; with the reason for each |
| ReverseDebugging.StepOverStopsBehind | src/remotes/cpuhistory.ts:1040-1092 | without a breakpoint, stepping over a CALL stops right behind it, over an RST one or two bytes behind it, at the first such entry; over another instruction at the next one |
| ReverseDebugging.StepOverIsLevelIff | src/remotes/cpuhistory.ts:1059-1092 | the loop compares the PC, although its comment asks for the same SP: after any number of entries forward through a regular history without LD SP,(nnnn), SP is where it was if and only if the virtual stack is as deep as it was, and lower exactly if it is deeper |
| ReverseDebugging.StepOverStopsInside | src/remotes/cpuhistory.ts:1059-1092 | a run of a recursive routine in which the first entry behind the CALL is an inner return, with a lower SP |
| ReverseDebugging.CpuHistoryClass.StepOut | src/remotes/cpuhistory.ts:1150-1207 | stops at the first entry behind an executed RET that leaves the stack above its start, or at one with a breakpoint, or at the present |
| ReverseDebugging.StepOutStopsAbove | src/remotes/cpuhistory.ts:1150-1207 | without a breakpoint, stepping out stops behind the first RET with SP above the start; in a regular history SP is then as the RET or an interrupt behind it has left it |
| ReverseDebugging.CpuHistoryClass.VirtualStackTracksSp | src/remotes/cpuhistory.ts:577-901 | in every state that these operations reach through a regular history, the virtual stack accounts for the words from SP to the top of the stack and the drift of the moves, and for exactly these words if and only if there is none |
| CallStackFromMemory.GetStackFromEmulator | src/remotes/remotebase.ts:841-863 | the words of the stack, the oldest one first and no more than 100; one byte off if the depth is odd |
| CallStackFromMemory.RemoteBase.GetCallStackFromEmulator | src/remotes/remotebase.ts:870-913 | remembering the type of the previous value gives the same frames as looking up each one |
| CallStackFromMemory.ReturnAddressIsRecognised | src/remotes/remotebase.ts:763-778 | the word behind an executed CALL or CALL cc in memory is recognised, with the called routine and the address of the CALL |
| CallStackFromMemory.EntryTypeIff | src/remotes/remotebase.ts:763-778 | no word is, unless the byte three before it is the opcode of a CALL |
| CallStackFromMemory.WordIs | src/remotes/remotebase.ts:841-863 | the low byte of a word comes first |
| CallStackFromMemory.ReconstructIsFaithful | src/remotes/remotebase.ts:870-913 | the frames cut the stack into runs: nothing is lost, added or moved, and each next frame is entered by the return address behind the run |
| CallStackFromMemory.ReconstructDepth | src/remotes/remotebase.ts:870-913 | frames above main and words on frames together are the stack words |
| CallStackFromMemory.WordsAreInMemory | src/remotes/remotebase.ts:841-913 | word j of a frame is the memory word at its start address minus 2 j, for an even depth, and one byte above it for an odd one |
| CallStackFromMemory.CallStackAccountsIff | src/remotes/remotebase.ts:841-913 | the frames account for the machine stack exactly if its depth is even, not negative and not cut at 100 words |
| LineIndexes.LineIndex.Associate | src/disassembler/disassembly.ts:348-363 | the callback: all lines up to this one that have no address yet get it, and all bytes within the 64K get the line |
| LineIndexes.RoundTrip | src/disassembler/disassembly.ts:110-155 | the line of any shown byte leads back to the start of what is shown in that line |
| LineIndexes.AddressesAscend | src/disassembler/disassembly.ts:148-155 | every line up to the last associated one has an address, and the addresses never decrease |
| LineIndexes.LineAddrIs | src/disassembler/disassembly.ts:351-353 | the address of a line is that of the first association at or behind it |
| LineIndexes.AddrLinesOnly | src/disassembler/disassembly.ts:355-362 | an address has a line only because something that is shown there starts or lies there |
| RenderTexts.RenderText.PrintData | src/disassembler/rendertext.ts:235-323 | data lines ascend and stay in their area; exactly the references of the area are shown, those that a source file shows apart, except for the one that gets lost when references before the area are left over; each line shows exactly the bytes from its reference on that are at most eight, before the next reference and the end of the area, and not behind a byte that a source file shows; and what is left on the stack |
| RenderTexts.PrintsIff | src/disassembler/rendertext.ts:236-264 | which reference gets lost: with references before the area left over, the second lowest one of the area, or the lowest one if it lies behind the area, unless it is there twice |
| RenderTexts.ReferenceIsLost | src/disassembler/rendertext.ts:236-264 | an input on which a reference of the area is never shown |
| RenderTexts.RenderText.CountBytes | src/disassembler/rendertext.ts:266-289 | a data line has as many bytes as possible before the next reference, the end of the area, eight bytes, and the first byte that a source file shows |
| RenderTexts.RenderText.RenderNodes | src/disassembler/rendertext.ts:366-487 | the label and every instruction of the shown nodes have lines of their own, an instruction with all of its bytes, unless a source file shows it; for sorted disjoint nodes lines and addresses ascend together, and outside of the nodes a line starts exactly at those references that no area loses and no source file shows, and shows exactly the bytes that belong to its reference |
| RenderTexts.NothingIsLost | src/disassembler/rendertext.ts:366-487 | nothing is lost if no reference leads into a node that is shown |
| RenderTexts.ShownRoundTrip | src/disassembler/rendertext.ts:433-472 | asking for the line of a shown instruction, and then for the address of that line, gives the instruction again; all of its bytes have the same line |
| RenderTexts.DataByteIff | src/disassembler/rendertext.ts:266-310 | a byte outside of the nodes has a line if and only if it belongs to a reference that is not lost: within eight bytes, before the next reference and the next node, and not behind a byte that a source file shows |
| RenderTexts.DataRoundTrip | src/disassembler/rendertext.ts:266-313 | such a byte is found in that line, which leads back to the reference |
| Listings.ListingIsInOrder | src/disassembler/rendertext.ts:346-362 | whatever nodes of a flow graph are shown: sorted by address they are in order and inside of the 64K, as long as the byte ranges of the nodes are disjoint |
| Listings.CodesOfNode | src/disassembler/rendertext.ts:437-479 | adding up the instruction lengths of a node, pseudo instructions included, gives the addresses at which the flow analysis found its instructions, and its end |
| Listings.RenderListing | src/disassembler/rendertext.ts:346-487 | breakpoints of the disassembly: for every instruction of the shown nodes of a flow graph that no source file shows, each of its bytes leads to its line, and the line leads back to the instruction |
| Listings.CodeIsListed | src/disassembler/rendertext.ts:346-362 | when all nodes are shown, every CODE_FIRST instruction is one of these, for all start addresses and in every run |
| MemoryDumps.MemoryDump.GetDiffMemDump | src/misc/memorydump.ts:337-412 | the difference is what a scan over all bytes in the order of the blocks collects, with a map of runs keyed by their start; without a check both dumps are copied |
| MemoryDumps.DiffIsExact | src/misc/memorydump.ts:354-409 | for ascending disjoint blocks the difference holds exactly the bytes that have changed, or have grown by the number, each at its address with its current and old value, as runs that never overlap or touch |
| MemoryDumps.ScanCollects | src/misc/memorydump.ts:354-391 | the scan with the map refines the simple list of runs, for ascending addresses |
| DeltaSearch.SearchDiff | src/misc/memorydump.ts:569-600 | an address is found exactly if all differences match in some block; at the end of the data nothing matches |
| DeltaSearch.SearchData | src/misc/memorydump.ts:503-525 | nothing is searched for an empty input, one number alone is an error |
| DeltaSearch.SearchIsUpToConstant | src/misc/memorydump.ts:515-600 | the differences match at an index exactly if some offset makes the whole text appear there, and then the offset of the first character does |
| DeltaSearch.EvalMemDelta | src/commands/memorycommands.ts:51-148 | the offsets are exactly the different ones that make the text appear with the right first character, and each prints the whole range decoded, in rows and columns; each error has its exact condition |
| DeltaSearch.PrintRange | src/commands/memorycommands.ts:106-140 | every byte of the range is printed once, in order, in the row and column of its address |
| Mutexes.SettledOnce | src/misc/mutex.ts:42-98 | the settlement law, in every interleaving: each promise of `lock` waits, is about to be resolved, or has been resolved or rejected, and only one of these and only once |
| Mutexes.GrantsAreOrdered | src/misc/mutex.ts:42-98 | in every interleaving only the head of the queue has been granted, the others wait, a non-empty queue has one running timer, and grants are in the order of the calls |
| Mutexes.MutualExclusion | src/misc/mutex.ts:42-75 | without timeouts, if only the holder unlocks, there is one holder at a time, `unlock` does not throw, nobody is rejected, and grants are first in, first out |
| Mutexes.HolderIsHeadOrOusted | src/misc/mutex.ts:60-98 | with timeouts and late calls of `unlock` the holders are exactly the head of the queue and everybody who was removed from there without having unlocked |
| Mutexes.TwoHoldIff | src/misc/mutex.ts:60-98 | two clients hold the mutex at once exactly if one has been removed from the head, and the other one is the head or has been removed as well |
| Mutexes.LateUnlockOusts | src/misc/mutex.ts:60-98 | a run in which the late `unlock` of a client whose time was out takes the lock from one whose time is not out |
| Mutexes.TwoHoldersAfterTimeout | src/misc/mutex.ts:83-98 | a run in which a timeout makes two clients hold the mutex at once |
| Mutexes.Mutex.Lock | src/misc/mutex.ts:42-52 | one step of the system: queues the promise and grants it if it is alone |
| Mutexes.Mutex.Unlock | src/misc/mutex.ts:60-75 | one step of the system: releases the head and grants the next one; throws without a timer handle |
| Mutexes.Mutex.TimerCallback | src/misc/mutex.ts:85-95 | one step of the system: rejects all that wait and empties the queue, while the handle stays |
| MemBuffers.MemBuffer.GetSize | src/misc/membuffer.ts:85-91 | the size after a dry run is the number of bytes that the same object really writes |
| MemBuffers.MemBuffer.Serialize | src/misc/membuffer.ts:94-156 | an object is written completely exactly if there is room for all of it, and then its bytes are appended |
| MemBuffers.MemBuffer.Deserialize | src/misc/membuffer.ts:169-233 | what is read back are the decoded items, up to the first one that does not fit |
| MemBuffers.RoundTrip | src/misc/membuffer.ts:85-235 | reading the same types as were written returns the items and ends behind them |
| MemBuffers.RoundTripIff | src/misc/membuffer.ts:94-235 | the items come back exactly if every one is in the range of its format |
| MemBuffers.ItemReadsBackIff | src/misc/membuffer.ts:94-233 | one item comes back exactly if it is in range; otherwise something else is read |
| MemBuffers.EncodingIs | src/misc/membuffer.ts:94-156 | what is written: integers with the most significant byte first, modulo their size, 1 or 0 for a boolean, and the length in front of arrays and texts |
| MemBuffers.DecodingIs | src/misc/membuffer.ts:169-233 | what is read: the number for which the bytes stand, true for any byte but 0, and arrays up to their length or the end of the buffer, while the offset moves by the whole length |

## Left out

- FlowTheorems.FlowIsReachability: needs that it does not matter from which slot an instruction is reached, and `PagedCodeIsMissed` shows that something of the kind is needed; soundness, `AnalysedIsReachable`, `DoneIsFollowed` and `DoneIsClean` hold for all start addresses.
- FlowTheorems.AmbiguityIffOverlap: under the same condition, and if no flow leads to unfetched memory inside of a reachable instruction, as such a target is no instruction itself and whether it is reported depends on the order; `CommentMeansConflict` has no condition.
- NodeLabels.AssignNodeLabels: a label is what it stands for, not a text, so that made up labels that happen to be in the label files are not part of it.
- SmartDisassembly.SmartDisassembler.GetFlowGraph: the nodes are filled and labelled in ascending order of their addresses instead of the order of insertion, which only changes the order of the comments, predecessors and callers; `markSubroutines` uses the order of insertion.
- FlowExamples.PassesAgreeIff: skips that wrap around the end of memory are not part of the other results, because `Valid` excludes them.
- SmartDisassembly.SmartDisassembler.GetLabelFromSlotForAddress: labels are not shortened to their local part, which compares texts.
- Listings.RenderListing: which nodes `getAllNodesRecursively` selects for a depth; the result is for every selection.
- ReverseStack.WalkDrifts: a regular history keeps SP even and below the top of the stack, and an interrupt frame over which the walk goes back holds no words; `BackFollowsIff` and `ForwardFollowsIff` say what happens without.
- ReverseDebugging.CpuHistoryClass.StepOver: `stepOver`, `stepOut` and `continue` share one loop that stops for different goals; the real call stack is fetched again inside it instead of right after it.
- ReverseDebugging.CpuHistoryClass.PrepareReverseDbgStack: the list of frames is copied, while the source shares it with the cache of the remote, which is not read again before it is replaced; the frames themselves are shared here as well.
- StepHistory.StepHistoryClass.Continue: breakpoints are a function of address and registers; their texts and expressions are not modelled. A recorded call stack is a value.
- RenderTexts.RenderText.RenderNodes: the texts, columns and colours of the lines. Which references are shown is said for nodes that are sorted and do not overlap, and `IsLost` follows the areas one by one: whether an area loses a reference depends on what the areas before it have left over.
- LineIndexes.RoundTrip: `getLinesForAddresses` is not part of it.
- MemoryDumps.DiffIsExact: blocks that overlap or are not sorted are covered by the scan only; the titles of the blocks are not modelled.
- DeltaSearch.EvalMemDelta: the parsing of the arguments; the found addresses of a block are visited in ascending order.
- Mutexes.MutualExclusion: time itself is not modelled, a running timer can fire at any moment; a client unlocks at most once, and not before its promise is resolved.
- MemBuffers.RoundTrip: floating point numbers are their eight bytes, texts the bytes of their encoding.
- `pause` and the flag `running`: a run is not interrupted.
- Inheritance: `CpuHistoryClass` repeats the few methods that it takes over from `StepHistoryClass`, because classes here do not extend one another.
- `getChangedRegistersString`, `emitHistorySpot` and other output of the history: text.
- `mergeBlocks`, `getSubLabels` and the search for plain text in memory dumps: easy, or without a clear promise.
- Long addresses, labels and memory of the paused emulator are functions that do not change.
- The opcode table, label files, expressions, sockets, emulators and all of the user interface.
