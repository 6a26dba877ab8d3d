# Verified model of the modem extractor's engines

The extractor turns modem firmware into an address space, follows its ARM and Thumb code, and publishes what it
found. This Dafny project models the parts whose results others rely on and proves what those results mean. The
model works on values where the program computes expressions, and on classes, loops and arrays where the program
updates state in place.

## What is modelled

**The control-flow and must-value engine** (`SemanticDecode`, `MachineControl`, `CfgDecode`, `CfgWalk`, `CfgWalkSteps`,
`QueueOrder`, `ControlGraph`, `PostOrder`, `DominatorChains`, `DominatorFixpoint`, `IntervalNumbering`, `SemanticGraph`,
`MustValues`, `ShiftBits`, `DataflowJoin`, `DataflowMeasure`, `Dataflow`, `Architecture`, `KnownValues`, `Derivations`,
`MustValueSoundness`, `Provenance`, `DefinitionPaths`, `FactPaths`, `LineageLoss`).
A bounded worklist decodes a graph it discovers as it goes; dominators come from a fixed point over reverse
postorder and are answered by interval numbers; a second worklist computes the register values that are certain at
each instruction. `SemanticDecode.DecodeGraph` states the outcome about the image alone: which addresses are kept,
which edges are handed off and why, what every path and every machine execution does, and exactly when it is refused.
`MachineControl` says where control can go without the walk's tables, `KnownValues` what can be known after an
instruction, and `FactPaths` and `DefinitionPaths` which values, lineages and definitions the second worklist knows.

**The address space** (`RuntimeImage`, `RuntimeQueries`, `ScatterPlan`). Sorted segments refine one flat partial
memory: reads, hashes, provenance spans, strings and byte-backed ranges are all stated over that memory, and a
scatter plan is accepted exactly when it describes one; `PlanTables` says so operation by operation.

**Execution identity** (`ExecutionRanges`, `RangeErrors`, `InstructionExtents`, `ExecutionIdentity`, `FrameLayout`).
Instruction extents become a canonical list that does not depend on their order; the budget charges all counters or
none; the digest is fed an injective frame.

**Evidence and output.** `SourceAttribution` and `GlobalResolution` decide between competing claims; `TreeNaming`
gives every source path its own file name, `SourcePaths` says what a source path is, and `TreeClashes` and
`SourceClashes` say where names can still meet; `TokenDatabase` and `TokenCsv` are the token format, its inverse and
its table; `StringRemap`, `JsonText` and `TraceTables` publish the trace strings; `DisasmIndex` slices a listing with and
without copying; `RecordSegments` cuts radio configuration data into records; `ExceptionSummary` accepts summaries that
conserve their entries; `SerialCorrelation` bounds a statistic.

Where a result could be read off its own definition, a module beside it says it again by what can be seen from outside:
`SourceEvidence`, `GlobalCounts`, `NamingOrder` and `NameShapes`, `CsvColumns`, `JsonLayout`, `DisasmLines` and
`ExceptionTable`. `Words`, `Arm32`, `Sorting`, `AddressCount` and `Text` hold what these share.

## Assumptions

- The instruction decoder is any partial function of an address and the bytes fetched there. Its result is the
  datatype `Arm32.Instruction`, with the cases the engine distinguishes.
- An instruction changes only its destination, its `writes`, or at a call the volatile registers; a predicated one may
  or may not execute; byte-backed literals keep their image contents. `Architecture.Executes` says so.
- BLAKE3 is an uninterpreted function of the bytes fed to it, with a digest of fixed width.
- The validity of UTF-8 and the address at the head of a listing line are parameters.
- The standard library's sorting, deduplication and set or map iteration are functions whose defining properties are
  proved in `Sorting` and `Words`.

## Where the code and its description differ

- Definition sets are a union over paths, not what one run took. `DefinitionPaths.DefinitionsExact` says they list
  exactly what some path takes, and `DefinitionPaths.DiamondListsBoth` with `ArmRuns` shows two runs that each take less.
- What a decode accepts depends on the order of its attempts in two ways: an address that holds nothing may be sought
  strictly inside a reached instruction, which is refused only when the instruction was kept first; and a block start is
  counted for a target that fails later, not for one that has failed already. `SemanticDecode.DecodeGraph` is exact for
  all codes, over the one order that `QueueOrder` defines; `SemanticDecode.MalformedExactly` isolates the first case, and
  `SemanticDecode.AcceptedExactly` is the condition without an order for codes in which neither occurs.
- A lineage is lost where paths through a join disagree, and stays lost when the value is then copied, though all paths
  agree on the copy: `LineageLoss.AgreedButLost` is an input, `FactPaths.LineageExact` the exact condition.
- `StringRemap.RemapIsPermutation`: the indices are truncated to 32 bits, so the remap is a permutation exactly for
  tables of fewer than 2^32 strings.
- `TokenDatabase.SerializeThenParse`: a text with a NUL, a date whose four bytes are all ones, or a count past 32 bits
  does not survive; the condition is exact.
- Shortening long segments is not injective: `TreeClashes.ShortenedMeet` is a family of inputs, `TreeClashes.LongPathsMeet`
  one that the program receives, and `TreeClashes.GuardedAlikeExactly` the exact condition. `TreeNaming.NamesDistinct`
  still holds for them, because the suffix search comes after.
- A file can be named like a directory of the tree: the directory set is asked only before `.node` is added, and never
  about a suffixed name. `TreeClashes.SampleClashes` is an input that the program receives, and
  `SourceClashes.SourceClashExactly` the exact condition on source paths. `TreeClashes.ClashExactly` is the condition for
  any paths whose names keep their directories.

## Model

| member | source | states |
|---|---|---|
| `SemanticDecode.DecodeGraph` | src/semantic_cfg.rs:383-425 | A decode either fails justifiably (the reached code is misaligned, enters or overlaps an instruction, opens an IT block, disagrees with the decoder about address, set or length, or is itself too large for the limit named), or yields exactly what the image says: the kept instructions are those that control can come to from the entry, and their edges lead exactly where control can go after them; disjoint extents; handoffs, external edges and dominance as stated about the ways control can take; exact states that hold on every execution; and instructions, bytes and blocks within the limits. A decode succeeds if and only if the code has none of the faults that every walk refuses and everything attempted in its turn fits (QueueOrder.Admitted) |
| `SemanticDecode.WalkFromEntry` | src/semantic_cfg.rs:627-710 | A misaligned entry and a block limit of zero are refused at once; otherwise the walk runs: a success is a finished walk whose work and blocks fit the limits, a refusal is justified, and which of the two is decided by the code and the limits alone |
| `MachineControl.EdgesExactly` | src/semantic_cfg.rs:793-869 | The edges of an instruction lead exactly where control can be after it: behind it when it is linear, when its condition fails, and when a call it makes comes back under the policy; to its target when it branches; nowhere when it returns |
| `MachineControl.HandoffExactly` | src/semantic_cfg.rs:793-869 | The handoff of an instruction is exactly that of the event that leaves the code: a call under the policy that hands calls off, an exception call, a return, a jump through a register |
| `MachineControl.NothingEscapes` | src/semantic_cfg.rs:793-869 | Whatever can happen to an instruction is followed along an edge or handed off |
| `MachineControl.BlocksExactly` | src/semantic_cfg.rs:793-869 | Blocks start behind and at the targets of exactly the instructions to which something else can happen than that control goes on |
| `MachineControl.TargetFirst` | src/semantic_cfg.rs:801-816 | The edges of a branch are followed target first; no other instruction has more than the one behind it |
| `MachineControl.BoundariesExactly` | src/arm32/mod.rs:275-294 | Registers are given up at exactly the instructions that can enter a callee which comes back |
| `MachineControl.VolatileExactly` | src/arm32/mod.rs:260-288 | A callee may change R0-R3, R12 and LR, and no other register |
| `MachineControl.ReachedIsControlled` | src/semantic_cfg.rs:670-710 | In code without faults the walk reaches exactly the addresses that control can come to from the entry, inside the window |
| `MachineControl.WindowExactly` | src/semantic_cfg.rs:949-955 | The window holds the first addresses from the entry on, as many as it is wide |
| `MachineControl.ExtentExactly` | src/semantic_cfg.rs:957-964 | An instruction is in the window exactly when every address of it is |
| `MachineControl.WideExactly` | src/semantic_cfg.rs:731-735 | A halfword is the first of two exactly when its top five bits are 11101, 11110 or 11111 |
| `MachineControl.FetchExactly` | src/semantic_cfg.rs:712-756 | The decoder is given as many bytes as are charged: two for a Thumb address without bytes or with a narrow halfword, four otherwise |
| `MachineControl.FailureExactly` | src/semantic_cfg.rs:680-702 | An address that holds nothing is a decode failure exactly when its bytes are there and the decoder knows no instruction in them, and unmapped otherwise |
| `MachineControl.SaturatedExactly` | src/semantic_cfg.rs:1005-1016 | A saturated charge passes a limit exactly when the unbounded one does, save for the greatest limit, which nothing passes |
| `SemanticDecode.KeptFollowsControl` | src/semantic_cfg.rs:670-710 | The kept instructions are exactly those control can come to, and each recorded edge is a way control can go, and the other way round |
| `SemanticDecode.MalformedExactly` | src/semantic_cfg.rs:670-710 | The codes a walk may refuse are exactly those that every walk refuses (misaligned entry or target, an instruction the decoder disagrees about or that opens an IT block, overlapping reached instructions) and those where an address that holds nothing is sought inside a reached instruction |
| `SemanticDecode.FinishedNotRefused` | src/semantic_cfg.rs:670-710 | A walk that ends well has met none of the faults that every walk refuses |
| `SemanticDecode.RefusedWithinLimits` | src/semantic_cfg.rs:670-710 | When the sought work and the block starts fit the limits, a refusal means the code is malformed |
| `SemanticDecode.AcceptedExactly` | src/semantic_cfg.rs:670-710 | If branches land on instructions and no empty address is sought inside a reached instruction, a code is accepted if and only if it has none of the faults and its instructions, bytes and blocks fit the limits |
| `SemanticDecode.OrderDone` | src/semantic_cfg.rs:670-710 | The attempts of a finished walk are the whole order in which addresses come up, and everything in turn fits |
| `QueueOrder.OneOrder` | src/semantic_cfg.rs:670-673 | Of two histories in which each attempt is the next address on the list, the shorter begins the longer: there is one order of attempts |
| `QueueOrder.ListedOnce` | src/semantic_cfg.rs:871-903 | No address comes onto the list twice |
| `QueueOrder.FitsBefore` | src/semantic_cfg.rs:966-1016 | What fits the limits at the end of an order fitted all along |
| `QueueOrder.WholeFits` | src/semantic_cfg.rs:670-710 | If an order with nothing left on the list fits, and the code has no fault, every history in turn fits |
| `QueueOrder.KeepOrdered` | src/semantic_cfg.rs:793-903 | Keeping and following an instruction lists what it leads to in the order of its edges, and counts the block starts at targets that have not failed by then |
| `QueueOrder.FailOrdered` | src/semantic_cfg.rs:905-915 | An address that holds nothing to keep is passed over without changing the list or the block starts |
| `QueueOrder.TargetCounts` | src/semantic_cfg.rs:871-903 | A branch target in the window that has not failed yet counts as a block start, even when it fails later |
| `SemanticDecode.WorkFitsAll` | src/semantic_cfg.rs:986-1016 | The attempts of a finished walk count at least as much as any distinct sought addresses, so its limits bound them all |
| `SemanticDecode.NeededAreStarted` | src/semantic_cfg.rs:966-984 | A finished walk has counted the entry and every kept target of a reached branch or call as a block start |
| `SemanticDecode.FinishedKeeps` | src/semantic_cfg.rs:670-710 | When the walk ends, the decoded set is the set reached from the entry through in-window edges of the image, and every kept instruction has exactly the edges its flow gives it |
| `SemanticDecode.FinishedHandoffs` | src/semantic_cfg.rs:793-915 | When the walk ends, the handoffs are exactly: an instruction's own boundary, the source of an edge that leaves the window or leads to nothing that can be kept (with the kind of failure), and a failed entry; no handoff is missing or spurious |
| `SemanticDecode.FinishedExternal` | src/semantic_cfg.rs:584-595 | The external edges are exactly the edges of reached instructions to addresses that hold none |
| `SemanticDecode.StatesSound` | src/semantic_cfg.rs:420-423 | The exact states published with a graph hold at every point of every machine execution from the entry, whatever the initial registers |
| `SemanticDecode.WorkDone` | src/semantic_cfg.rs:986-1016 | A finished walk made one attempt at each sought address and no other, and the attempts and the bytes charged for them fit the limits |
| `SemanticDecode.AttemptedIsSought` | src/semantic_cfg.rs:670-686 | Only the entry and in-window targets of reached instructions are ever attempted |
| `CfgDecode.CfgBuilder.constructor` | src/semantic_cfg.rs:627-668 | A fresh walk has the entry queued as its one block start, and nothing attempted or charged |
| `CfgDecode.CfgBuilder.Run` | src/semantic_cfg.rs:670-710 | The worklist terminates; on success nothing is pending, every invariant holds within the limits and the history is the order of attempts; an error is justified by the image, and the code is then not admitted |
| `CfgDecode.CfgBuilder.Step` | src/semantic_cfg.rs:671-707 | One popped address keeps the walk invariant (extents disjoint, edges mirrored and accounted for, handoffs justified, queue sought, blocks exact) and the order of attempts, and makes progress, or fails justifiably |
| `CfgDecode.CfgBuilder.Attempt` | src/semantic_cfg.rs:671-707 | An attempt charges first, then keeps and follows, records a failed target, or refuses; the outcome is the one the image dictates |
| `CfgDecode.CfgBuilder.Settle` | src/semantic_cfg.rs:678-706 | What was found at an address is settled as the image says: refused when the decoder opened an IT block or disagreed, a failed target outside the window, kept otherwise |
| `CfgDecode.CfgBuilder.DecodeOne` | src/semantic_cfg.rs:712-756 | Result equals the decoder applied to the fetched bytes, two or four of them by the first halfword; the charge comes first, is saturating and is never given back |
| `CfgDecode.CfgBuilder.ExecutableBytes` | src/semantic_cfg.rs:758-765 | Bytes are returned exactly when the range is mapped, fits the address space and is byte-backed throughout, and they are the flat image bytes |
| `CfgDecode.CfgBuilder.ValidateInstruction` | src/semantic_cfg.rs:767-791 | Accepts exactly the instructions that agree on address, instruction set and a possible length |
| `CfgDecode.CfgBuilder.FollowInstruction` | src/semantic_cfg.rs:793-869 | The new walk is the old one with the instruction's own handoff noted and exactly the edges that flow and call policy give scheduled, in their order; a misaligned target, a wrong fallthrough or one block too many is a justified refusal |
| `CfgDecode.CfgBuilder.Schedule` | src/semantic_cfg.rs:871-903 | The new walk state is the old one with the edge recorded both ways, the handoff of a target outside the window or already failed, the block start, and the target queued unless it was attempted or queued |
| `CfgDecode.CfgBuilder.RecordFailedTarget` | src/semantic_cfg.rs:905-915 | The failure is handed off at every source of an edge to the target, or at the target itself when there is none |
| `CfgDecode.CfgBuilder.RejectPcInsideExtent` | src/semantic_cfg.rs:917-925 | Looking only at the nearest extent below finds every extent that the address falls strictly inside |
| `CfgDecode.CfgBuilder.RejectExtentOverlap` | src/semantic_cfg.rs:927-947 | Comparing only the two neighbouring extents accepts exactly when the new extent is disjoint from all of them |
| `CfgDecode.CfgBuilder.AddBlock` | src/semantic_cfg.rs:966-984 | A block start is added once; refusal exactly when one more would pass the limit, reporting that number |
| `CfgDecode.CfgBuilder.ChargeInstruction` | src/semantic_cfg.rs:986-1003 | Counts an attempt, or refuses with the number that would pass the limit and changes nothing |
| `CfgDecode.CfgBuilder.ChargeBytes` | src/semantic_cfg.rs:1005-1016 | Saturating charge; refuses with the number that would pass the limit and changes nothing |
| `CfgDecode.AllSoughtMore` | src/semantic_cfg.rs:671-678 | Distinct attempts, each at a sought address, stay so when one more is made |
| `CfgDecode.EntersMore` | src/semantic_cfg.rs:917-925 | The attempts of a walk never fall inside a reached instruction attempted before |
| `CfgWalkSteps.NeighboursSuffice` | src/semantic_cfg.rs:927-947 | Clearing the nearest kept extent on each side clears all of them |
| `CfgWalkSteps.KeepKeeps` | src/semantic_cfg.rs:702-705 | Keeping an instruction whose extent clears its neighbours keeps the whole walk invariant |
| `CfgWalkSteps.FailKeeps` | src/semantic_cfg.rs:905-915 | Recording a failed target keeps the whole walk invariant |
| `CfgWalkSteps.ScheduleKeeps` | src/semantic_cfg.rs:871-903 | Scheduling an edge of the followed instruction keeps the whole walk invariant |
| `CfgWalkSteps.FinishedExactly` | src/semantic_cfg.rs:670-710 | With nothing pending, kept = reached by a trail, and the recorded graph reaches every kept instruction |
| `ControlGraph.ReachableInstructions` | src/semantic_cfg.rs:1027-1045 | The breadth-first result is exactly the set of decoded nodes joined to the entry by a path |
| `PostOrder.ReversePostorder` | src/semantic_cfg.rs:1122-1147 | The explicit-stack search lists every reachable node once, the entry first and every other node after one of its predecessors |
| `PostOrder.ReversedOrder` | src/semantic_cfg.rs:1145-1146 | Reversing a postorder in which each node is followed by a parent gives an order in which each node comes after a parent |
| `DominatorChains.IntersectDominators` | src/semantic_cfg.rs:1149-1164 | The two-finger walk terminates at a node whose dominator chain is exactly the intersection of the two chains |
| `DominatorFixpoint.MeetPredecessors` | src/semantic_cfg.rs:1065-1078 | Folding the resolved predecessors gives the node whose chain is what they have in common |
| `DominatorFixpoint.UpdateKeeps` | src/semantic_cfg.rs:1078-1081 | One assignment to the immediate-dominator map keeps every invariant of the fixed-point iteration, chains never lose a true dominator |
| `DominatorFixpoint.UpdateWeighs` | src/semantic_cfg.rs:1078-1086 | Every changing assignment lowers the total weight, so the iteration terminates |
| `DominatorFixpoint.Pass` | src/semantic_cfg.rs:1063-1086 | A pass keeps the invariant; if it changed anything the weight dropped, and if not the tree satisfies the dominator equations |
| `DominatorFixpoint.ChainOnPath` | src/semantic_cfg.rs:1063-1086 | Members of a settled chain lie on every path from the entry |
| `DominatorFixpoint.ChainIsDominators` | src/semantic_cfg.rs:1063-1086 | At the fixed point each chain is exactly the set of nodes on every path from the entry |
| `DominatorFixpoint.ImmediateDominators` | src/semantic_cfg.rs:1056-1086 | The loop terminates and resolves every reachable node to a tree whose chains are the dominator sets |
| `IntervalNumbering.ContainmentIsAncestry` | src/semantic_cfg.rs:1098-1115 | At every step of the numbering, interval containment between finished nodes is membership in the chain to the root |
| `IntervalNumbering.NumberTree` | src/semantic_cfg.rs:1088-1115 | The clock-numbering of the tree answers ancestry by containment for every two nodes |
| `SemanticGraph.ComputeDominators` | src/semantic_cfg.rs:1047-1120 | For every two addresses the interval query answers yes exactly when both are reachable and every path from the entry passes through the first |
| `SemanticGraph.FromGraph` | src/semantic_cfg.rs:574-607 | For every graph: reachable set, reversed edges, external edges, and a dominator tree whose queries decide the path property over the whole decoded graph |
| `SemanticGraph.AnswersExactly` | src/semantic_cfg.rs:367-381 | The stored-interval query equals the path property, given a settled tree and its numbering |
| `SemanticGraph.CollectPredecessors` | src/semantic_cfg.rs:583-595 | Incoming edges are the reachable edges reversed; external edges are those that leave the reachable set |
| `SemanticGraph.ReachablePathsSuffice` | src/semantic_cfg.rs:582-596 | Passing through a node on paths inside the reachable set is the same as on paths of the whole decoded graph |
| `Dataflow.SolveDataflow` | src/semantic_cfg.rs:515-572 | The worklist terminates; an entry that was not decoded gives nothing; otherwise before and after are defined exactly on the reachable nodes, satisfy after = transfer(before) and before = join of all predecessors with the entry empty, know after every instruction exactly what can be known, and know at least as much as any claim that the equations bear out, every other solution included |
| `Dataflow.JoinPredecessorStates` | src/semantic_cfg.rs:1178-1194 | The fold is the join over all predecessors that have an output, and is absent exactly when none has |
| `Dataflow.RefreshSuccessors` | src/semantic_cfg.rs:545-568 | After the inner loop every decoded successor's input is the join of its predecessors' present outputs, and each changed one is queued |
| `Dataflow.Publish` | src/semantic_cfg.rs:540-544 | Publishing a transfer keeps the solver invariant, makes only the successors stale, and never adds a fact to an earlier output |
| `Dataflow.Finished` | src/semantic_cfg.rs:527-571 | With an empty queue the states solve the equations and are the most precise solution |
| `DataflowMeasure.StrictlyForgets` | src/semantic_cfg.rs:1196-1227 | A different state that forgets more has a strictly lower score |
| `DataflowMeasure.PublishDrops` | src/semantic_cfg.rs:527-544 | Every newly published output lowers the total score, which bounds the number of solver steps |
| `DataflowJoin.JoinMore` | src/semantic_cfg.rs:1178-1227 | Folding one more predecessor is joining with it: the fold does not depend on the order |
| `DataflowJoin.JoinMonotone` | src/semantic_cfg.rs:1178-1227 | Joining states that forget more, from at least as many predecessors, forgets more |
| `KnownValues.TransferKnows` | src/semantic_cfg.rs:1229-1293 | A register is known after an instruction exactly when it is left alone and was known, or is set unconditionally to a value that can be known; and then it has the value it had, or one the architecture gives it |
| `KnownValues.ExprComputes` | src/semantic_cfg.rs:1295-1359 | An expression is computed exactly when every register it reads is known, no operand is shifted by RRX, the policy admits its form, and the unbounded sum or difference is a word; the value is the architectural one |
| `KnownValues.ShiftComputed` | src/semantic_cfg.rs:1259-1270 | A shift is computed exactly when its source is known, it is not RRX, and the policy admits it |
| `KnownValues.LiteralComputes` | src/semantic_cfg.rs:1392-1409 | A literal load is computed exactly when it is PC-relative with a constant offset to an address that has a word, and gives that word |
| `Derivations.TransferDerives` | src/semantic_cfg.rs:1295-1372 | A register that is set is defined by this instruction and by all definitions of the registers read; its lineage begins here if none was read, goes on if one was, and is lost if two were. A register left alone keeps everything it had |
| `Architecture.VisibleExactly` | src/arm32/mod.rs:28-34 | The visible PC is eight ahead, or for aligned literals the last word address at most four ahead |
| `Architecture.VisibleWraps` | src/arm32/mod.rs:28-34 | Near the end of memory it wraps around |
| `MustValues.TransferMonotone` | src/semantic_cfg.rs:1229-1293 | Knowing less before an instruction never means knowing more after it |
| `ShiftBits.ShiftExact` | src/semantic_cfg.rs:1374-1390 | Whenever the shift is computed, the result is the one word whose every bit is the bit the shifter puts there |
| `ShiftBits.RotateRightBits` | src/semantic_cfg.rs:1387 | Bit i of a rotation is bit (i + amount) mod 32 of the value |
| `MustValueSoundness.OperandSound` | src/semantic_cfg.rs:1361-1372 | A computed operand is the operand's value in any registers the state describes |
| `MustValueSoundness.EvaluateSound` | src/semantic_cfg.rs:1295-1359 | A computed expression has the 32-bit wrapped value the architecture gives it |
| `MustValueSoundness.TransferSound` | src/semantic_cfg.rs:1229-1293 | Facts that hold before an instruction give, by the transfer, facts that hold after it: calls scramble the volatile registers, predicated instructions may or may not execute, unknown effects change their writes |
| `MustValueSoundness.JoinSound` | src/semantic_cfg.rs:1196-1227 | What the join keeps holds wherever any one of the predecessors' facts hold |
| `MustValueSoundness.RunSound` | src/semantic_cfg.rs:515-572 | On every concrete run along the edges from any registers, each fact before or after an address equals the concrete value there |
| `Provenance.EvaluateTraces` | src/semantic_cfg.rs:1295-1359 | The definition set of a computed value holds the instructions whose results went into it |
| `Provenance.TransferTraces` | src/semantic_cfg.rs:1229-1293 | Origins of the registers after an instruction are described by the transferred definition sets and lineage |
| `Provenance.RunTraces` | src/semantic_cfg.rs:1196-1227 | At every point of every run, the definition set of a fact contains the definitions this run took, and a lineage is the root it took |
| `DefinitionPaths.PathTraces` | src/semantic_cfg.rs:1196-1227 | The same along every path of the graph: what the path takes is listed |
| `DefinitionPaths.TakenAfterStep` | src/semantic_cfg.rs:1229-1359 | What some path takes after an instruction is what the instruction takes from what some path takes before it |
| `DefinitionPaths.TrimmedSolves` | src/semantic_cfg.rs:527-571 | Keeping only the definitions that some path takes leaves a solution of the dataflow equations |
| `DefinitionPaths.DefinitionsExact` | src/semantic_cfg.rs:515-572 | The definitions the solver lists for a value are exactly those that some path of the graph takes: none is missing, none is spurious |
| `FactPaths.PathForgets` | src/semantic_cfg.rs:527-571 | A solution knows nothing that some path alone does not make known |
| `FactPaths.AlongLineages` | src/semantic_cfg.rs:1295-1359 | On one path alone, every value has the lineage of where it came from: the last instruction that wrote it, and the first |
| `FactPaths.TransferNeeds` | src/semantic_cfg.rs:1229-1359 | What an instruction makes of a register, value and lineage, depends only on the registers it is computed from |
| `FactPaths.ClaimsAreBorneOut` | src/semantic_cfg.rs:1178-1227 | What the paths agree on, together with what it was computed from, is borne out by the equations under either join policy |
| `FactPaths.FactsExact` | src/semantic_cfg.rs:515-572 | A register's value is known before an instruction if and only if all paths agree on it and on everything it was computed from (and, under the stricter policy, on the lineage wherever paths meet), and it is the value each path alone gives |
| `FactPaths.LineageExact` | src/semantic_cfg.rs:1196-1227 | A known value keeps its lineage if and only if all paths agree on its last definition and root, and on those of everything it passed through; the lineage is then that of every path |
| `LineageLoss.AgreedButLost` | src/semantic_cfg.rs:1196-1227 | After two paths have copied a register in place and met, a further copy of it is known but has no lineage, although all paths agree on that copy's last definition and root |
| `DefinitionPaths.ArmRuns` | src/semantic_cfg.rs:1196-1227 | Two runs through the arms of a branch, one of them branching over the other arm, reach the join with the same value, each through its own definition |
| `DefinitionPaths.DiamondListsBoth` | src/semantic_cfg.rs:1196-1227 | At that join the set lists both definitions, so it strictly contains what either run took |
| `DefinitionPaths.DiamondPosed` | src/semantic_cfg.rs:515-526 | The solver accepts that graph: its nodes are reached, its edges followed and reversed |
| `RuntimeImage.PartitionPoint` | src/runtime_image.rs:595-597 | The index found is that of the first segment ending after the address |
| `RuntimeImage.VisitRange` | src/runtime_image.rs:585-628 | Succeeds exactly when the range fits 32 bits and every address is mapped; its pieces tile the range in order, each as long as its segment allows |
| `RuntimeImage.ReadInto` | src/runtime_image.rs:425-450 | Copies one piece to its place in the buffer and nothing else |
| `RuntimeImage.CopySpans` | src/runtime_image.rs:425-450 | The buffer filled piece by piece is the bytes of the flat map in order |
| `RuntimeImage.ReadExact` | src/runtime_image.rs:403-452 | Succeeds exactly up to 64 KiB on mapped ranges that fit 32 bits (and for no bytes anywhere), and returns the flat map's bytes whether borrowed or copied |
| `RuntimeImage.FlatAt` | src/runtime_image.rs:22-60 | In a sorted disjoint image the flat map at an address is what the one covering segment holds |
| `RuntimeImage.SpanBytesFlat` | src/runtime_image.rs:585-628 | The bytes of a piece of a segment are the flat map's bytes at its addresses |
| `RuntimeQueries.HashRange` | src/runtime_image.rs:498-521 | The hasher is fed exactly the flat map's bytes, however the chunks fall; success as for a visit |
| `RuntimeQueries.FeedSpan` | src/runtime_image.rs:502-519 | Chunks of at most 64 KiB concatenate to the bytes of the piece |
| `RuntimeQueries.StorageSpans` | src/runtime_image.rs:523-539 | The spans partition the range in address order, one per segment, and each describes the storage of every address in it |
| `RuntimeQueries.IsByteBacked` | src/runtime_image.rs:541-548 | True exactly when no address of the mapped range is virtual zero-fill |
| `RuntimeQueries.ByteBackedRanges` | src/runtime_image.rs:550-565 | The ranges are the maximal intervals of byte-backed addresses: ascending, separated, and covering exactly those addresses |
| `RuntimeQueries.ReadAsciiNul` | src/runtime_image.rs:454-496 | Succeeds exactly when a printable string of at most the given length is followed by a NUL; returns its bytes and the spans of string and terminator, one per segment |
| `RuntimeQueries.PrintableExactly` | src/runtime_image.rs:454-496 | Printable bytes are those from the space to the tilde |
| `RuntimeQueries.WordExactly` | src/semantic_cfg.rs:1392-1409 | A literal word is there exactly where four bytes are, none of them virtual zero-fill, and is their number with the low byte first |
| `RuntimeQueries.ReadLiteralWord` | src/semantic_cfg.rs:1392-1409 | A literal word is resolved exactly where four byte-backed bytes are, to their little-endian value |
| `ScatterPlan.FromSegments` | src/runtime_image.rs:567-583 | Accepts exactly when no segment is empty and no two overlap, comparing sorted neighbours only; keeps the same segments |
| `ScatterPlan.RejectDestinationOverlap` | src/runtime_image.rs:670-684 | Accepts exactly when no two destinations overlap |
| `ScatterPlan.PlanOutput` | src/runtime_image.rs:207-304 | Accepts exactly the outputs the entry's operation can have, and yields the segment it adds, if any |
| `ScatterPlan.EntrySegment` | src/runtime_image.rs:183-304 | An acceptable entry adds a segment exactly when it writes memory; that segment covers its destination, is backed and is clear of the raw image |
| `ScatterPlan.FromPlan` | src/runtime_image.rs:140-313 | Accepts exactly the stated plans, and the image built maps exactly the raw bytes and what the entries write: nothing else |
| `ScatterPlan.CheckEntry` | src/runtime_image.rs:167-304 | An entry passes exactly when its index is new, its descriptor, destination and output are in order, and the total stays within the limit; a failure means no plan with it is accepted |
| `ScatterPlan.FromEntries` | src/runtime_image.rs:164-313 | The loop over the entries accepts exactly the plans whose entries, indices, totals and destinations are in order, and maps exactly what they say |
| `PlanTables.EntryExactly` | src/runtime_image.rs:167-304 | By operation: a null entry has no output and no size; a copy stays in place within the raw image or brings its bytes to a clear place; a decompression brings its bytes and a zero entry its zeros to a clear place; each names the handler of its own operation |
| `PlanTables.PlanExactly` | src/runtime_image.rs:140-313 | A plan is accepted exactly when it is about this image, has 1 to 256 entries with distinct indices, each sound for its operation, whose destinations share no address and have as many as it says, at most 512 MiB |
| `PlanTables.StoredExactly` | src/scatter/mod.rs:72-85 | Kept as zero fill are zero entries and decompressed outputs whose every destination byte is zero, and no others |
| `ScatterPlan.PlanFits` | src/runtime_image.rs:306-312 | The final segment check cannot refuse a plan the entry checks let through |
| `ScatterPlan.PlanIsMapped` | src/runtime_image.rs:140-313 | An address holds a cell exactly when the raw image or one entry puts it there |
| `ScatterPlan.DestinationReads` | src/runtime_image.rs:140-313 | Every raw address still reads its raw byte, and every destination reads its planned bytes, zeros or self-copied bytes |
| `ExecutionRanges.CanonicalizeErrors` | src/execution_ranges.rs:158-168 | The result holds exactly the errors given, each once, in strictly ascending order |
| `RangeErrors.ErrorsReported` | src/execution_ranges.rs:158-262 | A refusal lists every error found, each once, strictly ascending by address, kind and end |
| `RangeErrors.FaultsReported` | src/execution_ranges.rs:178-216 | Length, alignment and duplication errors are reported exactly for the extents at fault |
| `RangeErrors.OverlapsReported` | src/execution_ranges.rs:206-233 | Among extents of positive length, the overlaps reported name exactly the extents that share an address with another one, though each is compared with one prior extent only |
| `RangeErrors.OverlapsAlways` | src/execution_ranges.rs:206-233 | For any extents at all, in sorted order, an overlap is reported exactly for an extent that an earlier one reaches into, and for one that reaches into a later one furthest of all before it |
| `RangeErrors.MergedRuns` | src/execution_ranges.rs:234-246 | For any sorted list, empty and overlapping extents included, the merged ranges are those of its maximal runs of extents that go on from one another in one set |
| `RangeErrors.EntryAlways` | src/execution_ranges.rs:245-257 | For any extents at all: empty exactly when there are none, not a start exactly when no run begins at the entry and one holds it inside, missing exactly when there are extents and no run begins at or holds the entry |
| `RangeErrors.EntryReported` | src/execution_ranges.rs:245-257 | For disjoint extents: empty exactly when there are none, missing exactly when nothing is decoded at the entry, not a start exactly when the instruction set there goes on from before |
| `InstructionExtents.CodeExactly` | src/execution_ranges.rs:187-204 | Positive and aligned says that the extent is a row of whole instructions of its set, each of a possible length at an aligned address |
| `InstructionExtents.InstructionAccepted` | src/execution_ranges.rs:178-204 | No fault is found with the extent of one instruction of a possible length at an aligned address |
| `InstructionExtents.MisalignedExactly` | src/execution_ranges.rs:187-204 | Misalignment is reported exactly for extents that are neither rows of whole instructions nor empty places where one could stand |
| `InstructionExtents.NotCodeReported` | src/execution_ranges.rs:178-204 | Every extent that is not a row of whole instructions is reported |
| `InstructionExtents.AcceptedAsCode` | src/execution_ranges.rs:173-262 | Exactly the nonempty lists are accepted whose extents are rows of whole instructions, share no address, and begin an instruction set at the entry |
| `InstructionExtents.RangesAreCode` | src/execution_ranges.rs:234-246 | Every accepted range is a row of whole instructions |
| `InstructionExtents.ApartExactly` | src/execution_ranges.rs:205-232 | Two extents are apart exactly when no address is in both |
| `InstructionExtents.ErrorsByName` | src/execution_ranges.rs:158-168 | Errors come by address, then in the lexicographic order of the names of their kinds, then by end with none first |
| `ExecutionRanges.CanonicalizeInstructionExtents` | src/execution_ranges.rs:173-262 | The loops compute the specified outcome: sorted, swept, merged ranges or all errors |
| `ExecutionRanges.SweepFindsOverlaps` | src/execution_ranges.rs:205-232 | Comparing each extent only with the furthest-reaching one before it reports nothing exactly when no two overlap |
| `ExecutionRanges.MergedKeeps` | src/execution_ranges.rs:234-246 | Merging adjacent extents of one set keeps the decoded (address, set) pairs and leaves nothing mergeable |
| `ExecutionRanges.CanonicalStarts` | src/execution_ranges.rs:247-257 | A merged range starts at an address exactly when an instruction set begins there |
| `ExecutionRanges.AcceptedExactly` | src/execution_ranges.rs:173-262 | Success exactly when the extents are nonempty, positive, aligned, disjoint and an instruction set begins at the entry; the ranges are maximally merged and decode the same pairs |
| `ExecutionRanges.CanonicalUnique` | src/execution_ranges.rs:234-246 | Two canonical lists that decode the same pairs are the same list |
| `ExecutionRanges.OrderIrrelevant` | src/execution_ranges.rs:173-262 | Permuting the input changes neither the ranges nor the errors |
| `ExecutionRanges.CanonicalFixed` | src/execution_ranges.rs:173-262 | Accepted ranges are accepted again unchanged |
| `ExecutionIdentity.ExecutionBudget.FromRangeUsage` | src/execution_ranges.rs:265-279 | A budget starts from a usage within the limits, with nothing granted |
| `ExecutionIdentity.ExecutionBudget.Continue` | src/execution_ranges.rs:265-279 | A budget continues from any recorded usage, and is refused exactly when that is past a limit |
| `ExecutionIdentity.ExecutionBudget.CheckedCharge` | src/execution_ranges.rs:296-328 | Refuses exactly the charges that would pass one of the three limits, and otherwise gives the new counters |
| `ExecutionIdentity.ExecutionBudget.TryCharge` | src/execution_ranges.rs:330-337 | All three counters move together or none does: the budget always accounts for the charges granted, and no others |
| `ExecutionIdentity.RangeFramesInjective` | src/execution_ranges.rs:410-418 | The fixed-width frames of two range lists are equal only for equal lists |
| `ExecutionIdentity.FrameInjective` | src/execution_ranges.rs:405-420 | Two identities are hashed over the same bytes only when entry and ranges are the same |
| `ExecutionIdentity.ExecutionDigest` | src/execution_ranges.rs:405-420 | The bytes fed to the hash are exactly the frame of the entry, the count and the ranges |
| `FrameLayout.FrameIsLaidOut` | src/execution_ranges.rs:405-420 | The hashed bytes are the domain text and a NUL, the entry at 35 and the count at 39, low byte first, and from 43 on 41 bytes for each range: its set as 0 or 1, its bounds low byte first, and its hash |
| `FrameLayout.ChargedByAddress` | src/execution_ranges.rs:356-372 | An execution is charged one range for each extent and one byte for each address of them |
| `FrameLayout.AffordableExactly` | src/execution_ranges.rs:296-328 | A charge is affordable exactly when the budget that has granted it too keeps to the three limits, and the execution to its own |
| `FrameLayout.RequestExactly` | src/execution_ranges.rs:356-375 | A request is well formed exactly when every extent has an address, and hashes are expected for all extents or none |
| `FrameLayout.AuthenticExactly` | src/execution_ranges.rs:380-395 | It is authentic exactly when every address of its extents has a byte that is no virtual zero-fill, and each expected hash is that of the bytes at its addresses |
| `ExecutionIdentity.HashExtent` | src/execution_ranges.rs:380-390 | An extent is hashed exactly when it is byte-backed throughout, over the image bytes |
| `ExecutionIdentity.AuthenticateExtents` | src/execution_ranges.rs:350-403 | A request is charged once and exactly when it is well formed and affordable; it succeeds exactly when charged and every extent is backed and matches its expected hash; the identity hashes the frame |
| `ExecutionIdentity.ValidateExecution` | src/execution_ranges.rs:339-348 | Acceptable geometry, and only that, is charged as its canonical ranges, once, when the budget can afford it; it succeeds exactly when charged and every range is byte-backed, with the identity hashed over the frame |
| `SourceAttribution.Attribute` | src/recover_source.rs:563-696 | The three passes and the final sort file, path by path, exactly the specified rows, and report the ambiguity records in function order |
| `SourceAttribution.FiledExactly` | src/recover_source.rs:563-696 | Under a path stand exactly the rows that deserve it, each once: exact when the index claims the function there, direct when it is the only directly matching path, proximity when nothing matches directly and exactly one nearby source claims it; in function order |
| `SourceEvidence.DirectExactly` | src/recover_source.rs:510-519 | A direct match is an occurrence of the path that the function refers to |
| `SourceEvidence.RangeExactly` | src/recover_source.rs:521-534 | A range match is an occurrence of the path at or behind the start and before the end of a decoded range |
| `SourceEvidence.ClusterExactly` | src/recover_source.rs:536-553 | A cluster match is a reference to an address behind an occurrence by no more than the window; that the sum saturates changes nothing |
| `SourceEvidence.DeservedExactly` | src/recover_source.rs:563-696 | A row is deserved exactly for one of: the index names the path for the function; the function refers to this path and no other; it refers to none, and exactly one source, of this path, is nearby |
| `SourceEvidence.FiledByEvidence` | src/recover_source.rs:563-696 | Under a path stand exactly the rows with such evidence, each once, ascending by entry, then owner, digest and name of their functions |
| `SourceEvidence.AmbiguityByEvidence` | src/recover_source.rs:621-631 | A recorded ambiguity names exactly the paths that the function refers to, at least two, in lexicographic order |
| `SourceAttribution.ReportedExactly` | src/recover_source.rs:621-690 | The ambiguity records are those of the functions claimed directly by several paths, with those paths in ascending order, each record once, in function order |
| `SourceAttribution.AtMostOneResult` | src/recover_source.rs:597-662 | A function has at most one direct row, ambiguity record or proximity row, over all paths |
| `SourceAttribution.TraceEvidenceOnlyAdds` | src/recover_source.rs:573-595 | For every path, dropping the exact rows of a run with the index gives the row sequence of the run without it |
| `SourceAttribution.InOrder` | src/recover_source.rs:621-622 | However the claiming paths are met, they are listed in ascending order |
| `SourceAttribution.SortDropped` | src/recover_source.rs:664-677 | A stable sort commutes with dropping rows |
| `SourceAttribution.DirectClaims` | src/recover_source.rs:598-611 | The claims are the paths of the directly matching sources, each path once |
| `SourceAttribution.NearbyClaims` | src/recover_source.rs:639-653 | One claim for each nearby source, in source order, repeated paths included |
| `SourceAttribution.FileDirect` | src/recover_source.rs:597-631 | The direct pass files one row for a single claim, records several as ambiguous, and marks both |
| `SourceAttribution.FileNearby` | src/recover_source.rs:656-662 | Only unmarked functions with exactly one nearby claim get a proximity row |
| `TreeNaming.GuardShort` | src/source_tree.rs:306-324 | Segments within the limit are left alone |
| `TreeClashes.GuardedAlikeExactly` | src/source_tree.rs:306-324 | Two segments are guarded alike if and only if they are equal, both long with equal first 180 bytes and equal hashes, or one is a short segment spelled like the shortened form of the other |
| `TreeClashes.ShortenedMeet` | src/source_tree.rs:313-317 | Any two long segments that differ only in Aa against BB, after 180 bytes or more, are shortened to the same text |
| `TreeClashes.LongPathsMeet` | src/source_tree.rs:49-58 | Two different source paths, which the pattern admits and normalizing leaves as they are, are shortened to one name |
| `TreeClashes.ShortenedAlikeExactly` | src/source_tree.rs:306-324 | Two paths are shortened to the same path if and only if they have as many segments and each pair is guarded alike |
| `TreeClashes.ClashExactly` | src/source_tree.rs:326-361 | When names keep their directories, some file name is a directory of another name if and only if some final name is in the directory set of the paths |
| `TreeClashes.NodeClashExactly` | src/source_tree.rs:331-335 | With short segments and no case collisions that happens if and only if a path is a directory and its .node is a directory too |
| `TreeClashes.SampleClashes` | src/source_tree.rs:331-335 | For a/x.c, a/x.c.node/z.c and a/x.c/y.c the file a/x.c.node is also the directory of a/x.c.node/z.c |
| `TreeClashes.SampleReceived` | src/source_tree.rs:49-58 | The pattern admits these paths and normalizing leaves them as they are |
| `SourcePaths.NormalizePath` | src/source_tree.rs:760-776 | Stripping relative prefixes in a loop and dropping segments gives the segments that are neither empty nor dots, joined |
| `SourcePaths.NormalizedIsSource` | src/source_tree.rs:49-58 | What the pattern admits is normalized to a path of at most 204 plain bytes without empty or dot segments, whose last segment ends in a source extension |
| `SourceClashes.CandidateDetermines` | src/source_tree.rs:343-351 | A suffixed candidate tells the path it was made from and its number |
| `SourceClashes.PlainName` | src/source_tree.rs:326-361 | A final name without a tilde is the wanted name of the first path to want it |
| `SourceClashes.NameInDirectories` | src/source_tree.rs:326-361 | A final name is in the directory set of the paths if and only if its path is a directory, so is its .node, and no earlier path wants that name |
| `SourceClashes.SourceClashExactly` | src/source_tree.rs:326-361 | For any source paths, some file is named like a directory of the tree if and only if some path is a directory, its .node is a directory too, and no earlier path wants that name: a condition on the input paths alone |
| `TreeClashes.DotsLastKeep` | src/source_tree.rs:326-361 | Short segments with dots only in the last one keep their directories |
| `NameShapes.LongSegmentIs` | src/source_tree.rs:306-324 | A segment of more than 200 bytes becomes its first 180, a tilde, and eight hexadecimal digits of its bytes as a polynomial at 31, modulo 2^32 |
| `NameShapes.CandidateWithDot` | src/source_tree.rs:338-350 | A suffix goes before the last dot: a tilde and the number in decimal without a zero in front |
| `NameShapes.CandidateWithoutDot` | src/source_tree.rs:338-350 | Without a dot it goes to the end |
| `NameShapes.NodeIs` | src/source_tree.rs:331-336 | A path that is a directory, and no other, gets .node added before it is shortened |
| `NameShapes.FoldedExactly` | src/source_tree.rs:337-341 | Capital letters fold to small ones, and nothing else changes |
| `NameShapes.PathBytesAre` | src/source_tree.rs:49-54 | The bytes of a source path are letters, digits and _ . / \\ + - |
| `NameShapes.SourceTextIs` | src/source_tree.rs:49-54 | A source text is 3 to 200 of these bytes, a dot and an extension |
| `NameShapes.ExtensionsAre` | src/source_tree.rs:49-54 | Its extension is one of the twelve, in either case |
| `NamingOrder.NamesInOrder` | src/source_tree.rs:326-388 | Each path gets its own shaped name if no earlier name is spelled alike, and otherwise the next free suffix above the one that the last path spelled alike got |
| `NamingOrder.FirstToCollide` | src/source_tree.rs:336-356 | The first path spelled like an earlier name gets the least positive suffix that is free |
| `TreeNaming.CandidatesDiffer` | src/source_tree.rs:345-349 | Suffixed candidates of one path differ pairwise without regard to case |
| `TreeNaming.FreeSuffix` | src/source_tree.rs:343-356 | The suffix search terminates at the least suffix whose name is free |
| `TreeNaming.FinalizeRel` | src/source_tree.rs:326-361 | The loop returns the specified name and table |
| `TreeNaming.NameIsFresh` | src/source_tree.rs:326-361 | A returned name is new without regard to case, and is the only one added to the table |
| `TreeNaming.NameAll` | src/source_tree.rs:382-388 | A sequence of calls on one table gives the specified names |
| `TreeNaming.NamesDistinct` | src/source_tree.rs:382-388 | All names of any sequence of calls are pairwise distinct without regard to case |
| `TreeNaming.NameTree` | src/recover_source.rs:133-163 | The loader names the sorted manifest paths by the writer's rule and directory set |
| `TreeNaming.LoaderAgrees` | src/recover_source.rs:95-163 | For the same paths in any order, the loader recomputes for each path the name the writer chose |
| `GlobalResolution.GroupProposals` | src/globals.rs:684-696 | The two-level map holds, for each address and name, exactly the proposals made, in order |
| `GlobalResolution.DecideAddress` | src/globals.rs:740-777 | For names visited in any order, the winner is the only name, or the only recovered one among provisional ones; otherwise none |
| `GlobalResolution.ResolveGlobals` | src/globals.rs:719-887 | The report holds at most one global per address, ascending, with each counter the stated sum, and the suppressed subtraction never underflows |
| `GlobalResolution.RecoveredExactly` | src/globals.rs:740-794 | A global is recovered with a name exactly when that is the one distinct recovered name proposed there; provisional exactly when opted in and its name is the only one proposed |
| `GlobalCounts.ReportCounts` | src/globals.rs:719-887 | The counters are the numbers of recovered globals, of addresses where names are proposed and none wins, of proposals set aside by the one other name recovered at their address, of provisional proposals, and of those less the provisional globals |
| `GlobalResolution.ReportUnique` | src/globals.rs:719-887 | Two permutations of the proposals give the same report, so nothing depends on function or hash order |
| `TokenDatabase.Serialize` | src/tokens.rs:95-116 | The loop writes the specified image, laid out byte by byte as the format says |
| `TokenDatabase.Parse` | src/tokens.rs:32-93 | Accepts exactly the files written from an encodable database and returns that database, which stands in the file byte by byte as the format says |
| `TokenDatabase.ImageLaidOut` | src/tokens.rs:95-116 | What is written is TOKENS and two NULs, the count at 8 and the reserved word at 12, for entry k the token at 16 + 8k and then day, month and year, all low byte first, then each text with a NUL up to the end |
| `TokenDatabase.AcceptedMarks` | src/tokens.rs:54-64 | In an accepted file a date is absent exactly where its four bytes are all ones |
| `TokenDatabase.ImageInjective` | src/tokens.rs:95-116 | Two encodable databases have the same image only when equal |
| `TokenDatabase.SerializeThenParse` | src/tokens.rs:32-116 | Parsing what was written gives the database back if and only if its texts are NUL-free UTF-8, no date is all ones and the count fits |
| `TokenDatabase.FindNul` | src/tokens.rs:72-74 | The first NUL from a position, or none |
| `TokenCsv.FieldReads` | src/tokens.rs:118-126 | A quoted field is read back by the quoting rules in section 2 of RFC 4180 |
| `TokenCsv.CsvReads` | src/tokens.rs:128-144 | Any list of nonempty records is read back from its text |
| `TokenCsv.FirstDatesOf` | src/tokens.rs:128-136 | Duplicate (token, string) pairs keep the date of their first entry |
| `CsvColumns.QuotedExactly` | src/tokens.rs:118-126 | A field is quoted exactly when it holds a comma, a quote, a line feed or a carriage return |
| `CsvColumns.RowsAre` | src/tokens.rs:137-142 | Each row is the token in eight hexadecimal digits, the date as year, month and day of at least four, two and two digits with hyphens or nothing, and the text |
| `CsvColumns.RowsAscend` | src/tokens.rs:128-136 | Rows ascend by token, then lexicographically by text |
| `TokenCsv.WriteCsv` | src/tokens.rs:128-144 | A reader of the text recovers exactly the sorted unique rows |
| `StringRemap.OrderedTexts` | src/dbt_traces/artifact.rs:235-243 | Sorting the indices by their strings lists the strings in the order of the published table |
| `StringRemap.SortedRemap` | src/dbt_traces/artifact.rs:235-243 | The filled array sends each index to its place in the stable order of the strings |
| `StringRemap.RemapIsPermutation` | src/dbt_traces/artifact.rs:235-243 | The remap is a permutation if and only if the table has fewer than 2^32 strings |
| `StringRemap.RemapResolves` | src/dbt_traces/artifact.rs:235-293 | Every old index resolves to the position at which the sorted table holds the same string |
| `JsonText.StringReads` | src/dbt_traces/wire.rs:115-127 | Escaping is undone exactly, up to the closing quote |
| `JsonLayout.EscapedExactly` | src/dbt_traces/wire.rs:115-127 | Quotes, backslashes, line feeds and tabs get their short escapes, other control bytes the four-digit one, and no other byte any |
| `JsonLayout.IndentWidth` | src/dbt_traces/wire.rs:108-113 | Indentation is two spaces a level |
| `JsonLayout.SampleLooks` | src/dbt_traces/wire.rs:18-61 | A nested document byte by byte: members and elements on lines of their own, commas before the line end, empty containers on one line |
| `JsonLayout.TableExactly` | src/dbt_traces/artifact.rs:253-293 | A table file is an object of format, schema version, tool version, count and the rows under its own key, each row its number as id and its string under its own key |
| `JsonText.ValueReads` | src/dbt_traces/wire.rs:9-113 | Every value printed at any depth is read back exactly |
| `TraceTables.JsonWriter.OpenObject` | src/dbt_traces/wire.rs:18-23 | Opens an object one level deeper, marked empty |
| `TraceTables.JsonWriter.CloseObject` | src/dbt_traces/wire.rs:25-28 | Closes on the same line when empty, on its own indented line otherwise |
| `TraceTables.JsonWriter.OpenArray` | src/dbt_traces/wire.rs:30-35 | Opens an array one level deeper, marked empty |
| `TraceTables.JsonWriter.CloseArray` | src/dbt_traces/wire.rs:37-40 | Closes on the same line when empty, on its own indented line otherwise |
| `TraceTables.JsonWriter.Key` | src/dbt_traces/wire.rs:42-52 | Separator, indentation and escaped key text |
| `TraceTables.JsonWriter.Element` | src/dbt_traces/wire.rs:54-61 | Separator and indentation of an element |
| `TraceTables.JsonWriter.StringValue` | src/dbt_traces/wire.rs:63-67 | Appends the printed string |
| `TraceTables.JsonWriter.NumberValue` | src/dbt_traces/wire.rs:69-71 | Appends the printed number |
| `TraceTables.JsonWriter.WriteEscaped` | src/dbt_traces/wire.rs:115-127 | The byte loop appends the escaped text |
| `TraceTables.BeginTable` | src/dbt_traces/artifact.rs:253-270 | The writer's bytes and state after the envelope and the opened array |
| `TraceTables.WriteRow` | src/dbt_traces/artifact.rs:282-289 | Each row is appended as the printed row object, with its separator |
| `TraceTables.WriteStringTable` | src/dbt_traces/artifact.rs:272-293 | The file is the printed document of the sorted strings numbered from zero, and reads back as that document |
| `TraceTables.IndexResolves` | src/dbt_traces/artifact.rs:235-293 | A spilled index, remapped, finds its own string in the file that was written |
| `SerialCorrelation.VarianceNonnegative` | src/classify.rs:94-111 | The denominator is never negative, and zero exactly when all values are equal |
| `SerialCorrelation.NumeratorBounded` | src/classify.rs:94-111 | The denominator bounds the numerator's absolute value |
| `SerialCorrelation.CorrelationBounded` | src/classify.rs:94-111 | In exact arithmetic the correlation lies in [-1, 1] for every input |
| `SerialCorrelation.CorrelationOfDeviations` | src/classify.rs:94-111 | Up to a common factor, numerator and denominator are the covariance of each value with the next around the circle and the variance |
| `SerialCorrelation.Correlate` | src/classify.rs:94-111 | The three running sums give the circular correlation by its definition |
| `DisasmIndex.Index.constructor` | src/disasm_index.rs:31-50 | The lines are exactly those of the text with an address, with their byte extents, for every line ending |
| `DisasmLines.StrippedExactly` | src/disasm_index.rs:40-44 | A line is its bytes without one line feed at the end and then one carriage return |
| `DisasmLines.IndexHolds` | src/disasm_index.rs:31-50 | A line is in the index exactly when it lies between line feeds and begins with an address, with its bounds in the text; lines come in the order of the text |
| `DisasmIndex.Index.SliceFor` | src/disasm_index.rs:55-66 | The joined text of the selected lines |
| `DisasmIndex.Index.SliceCow` | src/disasm_index.rs:79-108 | For every text and range the same bytes as the copying form; borrowed exactly when nothing is selected, or the bytes from the first selected line to the last are the joined lines and hold no carriage return |
| `DisasmIndex.PlainExactly` | src/disasm_index.rs:82-105 | Those bytes are the joined lines exactly when the lines are adjacent and the last one ends in a line feed, where there is no carriage return |
| `DisasmIndex.ViewIsJoined` | src/disasm_index.rs:100-107 | Adjacent lines without carriage returns and with a final line feed are their own joined form |
| `DisasmIndex.PartitionSplits` | src/disasm_index.rs:57 | On a sorted listing the binary search splits the lines at the address |
| `DisasmIndex.SelectedExactly` | src/disasm_index.rs:55-66 | On a sorted listing a slice is exactly the lines with address in the range |
| `DisasmIndex.AdjacentSlices` | src/disasm_index.rs:55-66 | Slices of adjacent ranges concatenate to the slice of the union |
| `RecordSegments.SegmentRecords` | src/decode_rf.rs:104-127 | Records are ordered, begin and end with a nonzero byte, contain no four consecutive zeros, and are separated by at least four zeros, with only zeros between and around them |
| `RecordSegments.SegmentsUnique` | src/decode_rf.rs:104-127 | These conditions determine the records |
| `RecordSegments.NonzeroCovered` | src/decode_rf.rs:104-127 | Every nonzero byte of the range lies in a record |
| `ExceptionSummary.ParseSummary` | src/exception_pass2.rs:718-933 | Accepts exactly the summaries whose rows are consistent and strictly ordered and whose counters agree, and indexes every row by its key |
| `ExceptionTable.ConsistentExactly` | src/exception_pass2.rs:754-900 | By name result: applied belongs to the pass and is not over a reapplied function; reapplied is still there, or renamed by hand on the same symbol, and not over a created one; preserved is a name of somebody; not requested is a shared entry; no other row is consistent |
| `ExceptionTable.CountersCount` | src/exception_pass2.rs:743-913 | Each counter is the number of rows with its property |
| `ExceptionTable.SummaryExactly` | src/exception_pass2.rs:718-933 | Accepted are exactly the summaries of one or two tables with eight roles each and 1 to 16 consistent rows with ascending keys, whose counters are those of the rows, with the recorded property where the second pass owns a name |
| `ExceptionSummary.RowsConserve` | src/exception_pass2.rs:754-913 | The counts over any list of consistent rows balance |
| `ExceptionSummary.SummaryConserves` | src/exception_pass2.rs:743-933 | Function results and name results each sum to the entry count; not requested = shared; preserved names = preserved dispositions; applied + reapplied = exception-owned + pass2-owned; pass2-owned rows imply the recorded property |

## Left out

- Dataflow.SolveDataflow: the overlay of the solver is the empty one, which is what the decoder uses; a general overlay needs laws its interface does not state.
- CfgDecode.CfgBuilder.constructor: a constructor cannot refuse; SemanticDecode.WalkFromEntry refuses the misaligned entry and the zero block limit before it.
- ExecutionIdentity.ExecutionBudget.FromRangeUsage: a constructor cannot refuse; ExecutionBudget.Continue refuses usage past a limit before it.
- `induced_subgraph` and the accessors of the graph: they filter and rebuild by operations that are modelled.
- The chunked, shared representation of definition sets: sets are used, so sharing and chunk order are not captured.
- Segments backed by artifact files, and building an image from materialized artifacts: file access.
- `read_u8` and `read_u16`: exact reads of one and two bytes.
- RuntimeImage.PartitionPoint: a linear scan stands for the library's binary search; the binary search itself is modelled in DisasmIndex.Partition.
- ExecutionIdentity.ExecutionDigest: which bytes are hashed and that they determine the identity, not that digests differ.
- Reading projections and inventories from JSON, and the conservation fold over inventory counts: declarative shape checks.
- SourceAttribution.Attribute: rows and records carry the index of a function in place of its copy, and no reason text.
- Parsing decompiled bodies and rewriting source leaves: text layout.
- Extracting strings, following and attributing them inside an image: heuristics with no stated inverse or invariant beyond their bodies.
- TreeNaming.FinalizeRel: paths are ASCII; case folding and the length of a segment are those of bytes, not of Unicode characters.
- GlobalResolution.ResolveGlobals: the architecture and the evidence listed under a global, and the extraction of proposals from disassembly.
- TokenCsv.ReadCsv: a reader by the quoting rules of RFC 4180 with line feeds as record ends, as the writer uses them; it is not part of the program.
- JsonText.ReadValue: reads natural numbers, strings, literals, arrays and objects, and no surrogate escapes, which the writer never produces.
- The write of trace records and quarantine tables: the same writer calls over other columns; `canonical_spans` is a merge like that of execution ranges.
- The entropy, chi-square and window statistics, their thresholds, and floating-point rounding.
- The tables of radio configuration files and their header: fixed layouts.
- ExceptionSummary.ParseSummary: the words of a summary are parsed outside the model; an unknown word is an absent field, and the header's image, status and identity are taken as matched.
- Error texts, logging, command line, file staging and atomic replacement.
- Allocation failure and overflow of host-sized counters.
