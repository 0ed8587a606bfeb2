# Verified model of the PandA-Bambu Clang plugin transformations

The Clang plugin of PandA-Bambu rewrites LLVM code before high-level synthesis. This project models its two main
rewritings and three smaller ones in Dafny, and proves that the rewritten code means what the original meant and,
for the first, when it is not slower. `dafny verify dfyconfig.toml` checks everything.

**Tree height reduction** (`Thr*.dfy`). A chain of integer additions and multiplications becomes a pointer tree of
nodes. The nodes are objects that are linked in place; a ghost shape says which tree a linked structure represents.
`ThrLatency` updates latencies bottom-up, `ThrCollect`, `ThrForest`, `ThrMerge` and `ThrReduce` merge the leaves of
a group of equal operators two lowest latencies at a time, `ThrRebuilt` says what a group is afterwards, `ThrApply`
does so for a whole tree in post-order, `ThrEmit` emits instructions in reverse breadth-first order with a queue of
operand values. `ThrGreedy` and `ThrGroups` hold the optimality argument: a Kraft sum says which deadlines a list of
latencies can meet, and merging the two lowest never loses one, whatever an unstable sort does with ties. `ThrStale`
and `ThrSpeed` say what is left of this when phi leaves are stale, and `ThrWorst` computes the exact worst latency.
`ThrMeaning` shows that the value modulo the width depends on the groups only. `ThrIr`, `ThrErase`, `ThrSplice`,
`ThrReplaced`, `ThrScan` and `ThrBasicBlock` put this into a basic block: candidates and uses, construction of the
tree, insertion of the emitted code, erasing the originals, what this leaves of the block and of its other roots,
and the scan over all roots. Its main results are `ApplyTreeHeightReduction`, `GreedyIsOptimal`, `WorstIsExact`,
`EmissionMatches` and `RunOnBasicBlock`.

**Scalar replacement of aggregates** (`Csroa*.dfy`). Types are scalars, arrays and structs. `CsroaExpand` and
`CsroaGlobals` expand allocas and globals into trees of scalars; `CsroaGeps` flattens chains of address
computations; `CsroaAccess` rewrites an access to its scalar, or to a flat index with a chain of branches;
`CsroaRuns` proves that whole runs agree, `CsroaProgram` that expanding the variables and rewriting the program
makes it so, and `CsroaChains` ties accesses to the address computations they came from. `CsroaTypes` and
`CsroaCount` relate flat indices, positions and counts. `CsroaSignature` matches expanded signatures with their call
sites, `CsroaCheckArg` decides what arguments are used for on cyclic call graphs, `FixpointDeletion` proves that
deletion leaves the largest set of supported functions in whatever order it goes.

**Pointer iterators and copies.** `PtrReach` searches what a candidate phi reaches; `PtrIterator` and `PtrLoop`
replace pointer phis of a loop by 32-bit indices and prove a bisimulation over every run. `CopyLowering` lowers a
chunk copy to copies of its scalars.

Heap structures are modelled in place: `Node`, `Allocas`, `Globals`, `Signature` and `Module` are classes whose
methods change their fields. Costs are reals, integers wrap around where the code's do, and run-time values that are
not modelled (the meaning of other instructions, inputs, leaf values, addresses of roots) are universally
quantified.

Where the code does something other than its comments or assertions suggest, the model follows the code:

- A phi leaf carries latency 0 until some update reaches it. When a group is rebuilt, everything below a child of
  its root has been updated, so that exactly the phi leaves that are children of the root are stale. Such a child
  delays the group if and only if the operation takes time, the other child continues the group and is ready before
  the phi and one operation are (`ThrSpeed.DelayedIsExact`); then some run is slower than the original tree
  (`ThrWorst.DelayedOutcome`). Only groups whose rebuilding is final matter, so that the accumulator of an innermost
  loop, with its phi further down, is optimal. For any tree, with several groups, `ThrWorst.WorstIsExact` says
  exactly when the reduction can make it slower.
- A node whose operator differs from its parent's is not rebuilt at its own top. `ThrSpeed.OutcomeImproved` says
  which parts are optimal: the group of the root, and below it each part that continues the group of its parent.
- Adding the first index of an address computation to the last index before it is only right where the sum moves by
  whole objects. `CsroaGeps.FlattenableIsExact` gives the exact condition at every step; arrays and structs whose
  fields all have one type meet it, other structs in general do not.
- The size ratio of a chunk copy is truncated, but compared with 1 before. `CopyLowering.CopiesWholeChunk` says when
  the whole chunk is copied.
- The assertion that all uses were replaced, at the end of the pointer-iterator rewriting, fails when a phi that was
  reached takes an in-loop address computed from outside, another phi, a load, or an external behind an operand at
  which the search stopped. `PtrLoop.TracksIffReplaced` shows that this is the exact condition for the rewriting to
  be correct. Feasibility does not exclude it, because the search ignores the answers for other uses than those of
  the candidate (`PtrReach.UnacceptedFails`); it even depends on the order of these (`PtrReach.Search`).
- The first index of a flattened path is dropped. `CsroaChains.AccessThroughGeps` says exactly when the access is
  right all the same.
- The rewritten comparison of two pointers always takes the processed operand first and compares 32-bit words, and
  follows the other one to wherever its computations end. `PtrLoop.ComparisonAgrees` gives the exact condition under
  which an order comparison survives this.

## Model

| member | source | states |
|---|---|---|
| ThrTree.Node.constructor | etc/clang_plugin/TreeHeightReduction.hpp:178-186 | a new node has no links, latency 0 and cost 0, also when its value is a phi |
| ThrBfs.GetNodesAndLeavesByBFS | etc/clang_plugin/TreeHeightReduction.hpp:191-209 | the worklist over the heap visits exactly the breadth-first order of the linked tree |
| ThrBfs.BfsIsSubs | etc/clang_plugin/TreeHeightReduction.hpp:191-209 | breadth-first order contains every subtree, each once |
| ThrBfs.BfsChildrenLater | etc/clang_plugin/TreeHeightReduction.hpp:191-209 | both children come after their parent, so the reverse order is bottom-up |
| ThrLatency.AddChildLatency | etc/clang_plugin/TreeHeightReduction.hpp:536-566 | a child raises the latency to the maximum and adds its cost |
| ThrLatency.UpdateNodeLatency | etc/clang_plugin/TreeHeightReduction.hpp:503-527 | with current children a node stores max of the child latencies plus its own, and the truncated sum of costs; a phi stores 100000 |
| ThrLatency.UpdateTreeLatency | etc/clang_plugin/TreeHeightReduction.hpp:337-347 | whatever was stored before, afterwards every node of the tree stores its truncated cost and the latency of its longest path from a leaf: 100000 for a phi, k.add per addition and k.mul per multiplication on it |
| ThrLatency.LatIsLongest | etc/clang_plugin/TreeHeightReduction.hpp:503-527 | the recursive latency is attained on some path from a leaf and exceeded on none |
| ThrLatency.CostIsTotal | etc/clang_plugin/TreeHeightReduction.hpp:503-527 | the total cost is the sum of the costs of all operations and 100000 per phi, rounded down at every node, so exact for whole numbers |
| ThrCollect.CollectLeavesAndReusedNodes | etc/clang_plugin/TreeHeightReduction.hpp:998-1025 | the vectors are the leaves and the inner nodes of the operator group at the top, in worklist order |
| ThrCollect.Collected | etc/clang_plugin/TreeHeightReduction.hpp:998-1025 | the leaves are the frontier of the group and the reused nodes its inner nodes, as multisets; one leaf more than nodes; the first reused node is N, or N is its own only leaf |
| ThrForest.SortLeaves | etc/clang_plugin/TreeHeightReduction.hpp:1048-1058 | the sort gives some permutation in which every leaf is earlier than those behind it, or as early and no more costly; nothing is assumed of ties |
| ThrForest.RemoveNodeFromLeaves | etc/clang_plugin/TreeHeightReduction.hpp:1031-1044 | all occurrences of the node are erased, the order of the rest is kept |
| ThrForest.WithoutKeeps | etc/clang_plugin/TreeHeightReduction.hpp:1031-1044 | nothing else is erased: every other node occurs as often as before |
| ThrMerge.LinkChildren | etc/clang_plugin/TreeHeightReduction.hpp:1084-1088 | the merged node and its two operands form a properly linked tree |
| ThrMerge.CombineLeaves | etc/clang_plugin/TreeHeightReduction.hpp:1076-1092 | the last reused node takes the two operands, is pushed as a leaf, is properly linked and has current latencies |
| ThrMerge.MergeTwoLowest | etc/clang_plugin/TreeHeightReduction.hpp:1048-1067 | one iteration: two lowest stored latencies are merged, the other trees of the forest and all their links are untouched, and the leaf vector is the merged forest |
| ThrMerge.RootsAfter | etc/clang_plugin/TreeHeightReduction.hpp:1061-1064 | removing both operands removes exactly them: no leaf occurs twice |
| ThrReduce.MergeKeeps | etc/clang_plugin/TreeHeightReduction.hpp:1046-1067 | conservation: one leaf more than reused nodes at every iteration, each reused node consumed once, all nodes of the forest accounted for |
| ThrReduce.MergeLeaves | etc/clang_plugin/TreeHeightReduction.hpp:1046-1067 | the loop ends in one tree through a history of greedy merges; the reused vector is never empty when its back is taken; N is the last node merged |
| ThrReduce.ConstructOptimizedSubtree | etc/clang_plugin/TreeHeightReduction.hpp:1029-1073 | returns N itself as the root of a proper, linked tree with current latencies, reached by merging two lowest stored latencies at every step |
| ThrGreedy.MergeFits | etc/clang_plugin/TreeHeightReduction.hpp:1048-1067 | merging the two lowest latencies never loses a deadline that some binary tree over the leaves can meet |
| ThrGroups.ShapeWitnesses | etc/clang_plugin/TreeHeightReduction.hpp:1029-1073 | any binary tree that meets a deadline satisfies the Kraft bound of its leaves |
| ThrGroups.GreedyMeetsDeadline | etc/clang_plugin/TreeHeightReduction.hpp:1046-1067 | greedy merges, whatever the order of ties, keep every deadline that the leaves can meet |
| ThrGroups.GreedyIsOptimal | etc/clang_plugin/TreeHeightReduction.hpp:1029-1092 | no binary tree over leaves of the same latencies is faster than the greedy result |
| ThrGroups.MergesKeep | etc/clang_plugin/TreeHeightReduction.hpp:1076-1092 | merges keep the operands of the group and add exactly the nodes they use |
| ThrGroups.MergesKeepFrontier | etc/clang_plugin/TreeHeightReduction.hpp:1046-1067 | merges keep the leaves of the group as a multiset |
| ThrStale.StaleRunMeets | etc/clang_plugin/TreeHeightReduction.hpp:1046-1067 | with one stale phi leaf, no run is worse than merging the phi first with a lowest of the other leaves: any deadline that this meets is met |
| ThrStale.WorstRun | etc/clang_plugin/TreeHeightReduction.hpp:1046-1067 | ... and there is a run that begins so, sorted as the code sorts, and uses the given nodes |
| ThrStale.StaleDeadline | etc/clang_plugin/TreeHeightReduction.hpp:1046-1067 | so all runs with a stale phi leaf meet a deadline if and only if the latencies after that first merge fit it |
| ThrSpeed.StaleGroupExact | etc/clang_plugin/TreeHeightReduction.hpp:1029-1073 | the same for the runs on a group of a tree with a stale phi child |
| ThrSpeed.DelayedIsExact | etc/clang_plugin/TreeHeightReduction.hpp:1029-1073 | the latencies after the worst first merge fit the latency of the group if and only if the operation takes no time, the other child does not continue the group, or it is ready only when the phi and one operation are |
| ThrSpeed.DelayedIsSlower | etc/clang_plugin/TreeHeightReduction.hpp:969-980 | otherwise, whatever the reduction made of its subtrees, some run makes the group slower than it was in the original tree |
| ThrSpeed.NoSlowerIsExact | etc/clang_plugin/TreeHeightReduction.hpp:969-980 | so over clean subtrees no run makes the group slower than it was in the original tree if and only if no stale child delays it |
| ThrSpeed.WorstEarlier | etc/clang_plugin/TreeHeightReduction.hpp:1046-1067 | values that are no later fit, after the worst first merge, whatever the later ones fit |
| ThrSpeed.GroupNoSlower | etc/clang_plugin/TreeHeightReduction.hpp:976-980 | a rebuilt group whose subtrees have been reduced is no slower than the original one, if no stale child delays it |
| ThrSpeed.ImprovedGroup | etc/clang_plugin/TreeHeightReduction.hpp:976-980 | ... and optimal if it has none; the leaves of the group are no later in any case |
| ThrSpeed.GroupBest | etc/clang_plugin/TreeHeightReduction.hpp:976-980 | a group rebuilt without stale leaves is as fast as any binary tree over its leaves |
| ThrSpeed.ImprovedTop | etc/clang_plugin/TreeHeightReduction.hpp:969-976 | the same for a node that is not rebuilt because its parent has another operator |
| ThrSpeed.OutcomeImproved | etc/clang_plugin/TreeHeightReduction.hpp:947-995 | of all trees that the reduction may make of a tree none is slower if no final group is delayed, and all are optimal if no final group has a stale child |
| ThrSpeed.NoneStaleImproves | etc/clang_plugin/TreeHeightReduction.hpp:947-995 | without stale leaves, in particular without phi leaves, none is slower and all are optimal |
| ThrSpeed.OneOperatorClean | etc/clang_plugin/TreeHeightReduction.hpp:794-798 | in a tree of one operator only phi children of the root matter: an accumulator chain is never slower and becomes optimal |
| ThrWorst.GreedyLatExact | etc/clang_plugin/TreeHeightReduction.hpp:1046-1067 | the latency of merging two lowest values at a time is the first deadline that the values can meet |
| ThrWorst.OutcomeNoLater | etc/clang_plugin/TreeHeightReduction.hpp:947-995 | no outcome is later than the worst latency, which is computed on the original tree |
| ThrWorst.WorstOutcome | etc/clang_plugin/TreeHeightReduction.hpp:947-995 | some outcome is as late as that |
| ThrWorst.WorstIsExact | etc/clang_plugin/TreeHeightReduction.hpp:947-995 | so on every mixed tree, whatever phi leaves are stale, all outcomes meet a deadline, such as the latency of the tree, if and only if the worst latency does |
| ThrWorst.DelayedOutcome | etc/clang_plugin/TreeHeightReduction.hpp:947-995 | a tree whose root has a stale child that delays it has a slower outcome, whatever is below |
| ThrWorst.RootIsExact | etc/clang_plugin/TreeHeightReduction.hpp:947-995 | over clean subtrees, in particular in a tree of one operator, no outcome is slower if and only if no stale child delays the root |
| ThrRebuilt.RebuiltFlat | etc/clang_plugin/TreeHeightReduction.hpp:976-980 | a rebuilt group has the same operator, nodes and operands; a node of another operator than its parent is not rebuilt |
| ThrRebuilt.RegroupsReduced | etc/clang_plugin/TreeHeightReduction.hpp:976-980 | ... and has the same nodes, none twice; its top is N |
| ThrApply.ReduceChildren | etc/clang_plugin/TreeHeightReduction.hpp:955-962 | both subtrees are reduced in place, left first, and stay linked below their parent |
| ThrApply.RebuildGroup | etc/clang_plugin/TreeHeightReduction.hpp:969-994 | collecting and merging at N returns N, properly linked and current; on the root of the tree or inside the group of the parent it is a run of the merge loop on the group of N in which at most phi leaves that are children of N are stale |
| ThrApply.Reattach | etc/clang_plugin/TreeHeightReduction.hpp:980-991 | the rebuilt node hangs where it hung before, on the given side |
| ThrApply.ApplyTreeHeightReduction | etc/clang_plugin/TreeHeightReduction.hpp:947-995 | on every mixed tree: the result consists of the same nodes without sharing or cycle, parent and child links agree, it equals the original up to order and bracketing inside groups, and the root is N; with the stale leaves of a new tree it is one of the outcomes whose latencies ThrSpeed and ThrWorst bound |
| ThrMeaning.EvalIsExact | etc/clang_plugin/TreeHeightReduction.hpp:1129-1140 | wrap-around evaluation at every node equals the exact value modulo the width |
| ThrMeaning.GroupValue | etc/clang_plugin/TreeHeightReduction.hpp:1129-1140 | the value of a group of additions is the sum of its operands, of multiplications the product, modulo the width |
| ThrMeaning.FrontierIsMaximal | etc/clang_plugin/TreeHeightReduction.hpp:998-1025 | the operands of a group do not continue it, and its nodes have its operator |
| ThrMeaning.FlatValue | etc/clang_plugin/TreeHeightReduction.hpp:947-995 | trees that agree up to order and bracketing inside groups have the same value |
| ThrMeaning.FlatLeaves | etc/clang_plugin/TreeHeightReduction.hpp:947-995 | ... and the same leaves as a multiset |
| ThrMeaning.ReductionKeepsValue | etc/clang_plugin/TreeHeightReduction.hpp:947-995 | the reduced tree has the value of the original, for every width and assignment to the leaves |
| ThrEmit.GetOnlyNodes | etc/clang_plugin/TreeHeightReduction.hpp:589-607 | the inner nodes remain, in breadth-first order |
| ThrEmit.SetLeftAndRightOperand | etc/clang_plugin/TreeHeightReduction.hpp:609-650 | operands are taken from leaves or from the front of the queue, the right child first when both are inner nodes |
| ThrEmit.TopDenotes | etc/clang_plugin/TreeHeightReduction.hpp:609-650 | the instruction of a node uses exactly the values of its two children, in one order or the other |
| ThrEmit.EmissionMatches | etc/clang_plugin/TreeHeightReduction.hpp:1095-1117 | in reverse breadth-first order the queue never runs empty and holds the values of the waiting trees, last first |
| ThrEmit.EmittedScoped | etc/clang_plugin/TreeHeightReduction.hpp:1095-1117 | emitted instructions use leaves and earlier results only |
| ThrEmit.DenotedValue | etc/clang_plugin/TreeHeightReduction.hpp:1126-1156 | an operand that denotes a tree has the value of the tree when the code runs |
| ThrEmit.CreateIRs | etc/clang_plugin/TreeHeightReduction.hpp:1095-1122 | one instruction per inner node, one operand left in the queue, and it denotes the whole tree |
| ThrPass.ReduceAndEmit | etc/clang_plugin/TreeHeightReduction.hpp:831-842 | reduction followed by emission on a root: the code denotes an outcome of the reduction |
| ThrPass.EmittedIsEquivalent | etc/clang_plugin/TreeHeightReduction.hpp:826-842 | the emitted code computes the value of the original tree |
| ThrPass.EmittedIsInTime | etc/clang_plugin/TreeHeightReduction.hpp:826-842 | the value of the emitted code is ready by the worst latency, by the latency of the original tree if no final group is delayed, and so always without phi leaves |
| ThrPass.StoredIsCurrent | etc/clang_plugin/TreeHeightReduction.hpp:178-186 | merging by stored latencies is merging by current ones unless a phi leaf of the group is stale |
| ThrErase.CandidateIsTarget | etc/clang_plugin/TreeHeightReduction.hpp:1186-1206 | an operand of a target that is a node candidate is itself a target and has exactly one use; the multi-use answer can only concern the root |
| ThrErase.RepresentsHeld | etc/clang_plugin/TreeHeightReduction.hpp:885-920 | each inner node below the root has its only use in its parent |
| ThrErase.SidesApart | etc/clang_plugin/TreeHeightReduction.hpp:885-920 | the two sides of a node share no instruction: following the common one to its users would climb forever |
| ThrErase.InnerDefsDistinct | etc/clang_plugin/TreeHeightReduction.hpp:885-920 | no instruction is an inner node of the tree twice |
| ThrErase.ErasesInOrder | etc/clang_plugin/TreeHeightReduction.hpp:781-790 | erasing in breadth-first order never erases an instruction that still has a user |
| ThrErase.ErasedInOrder | etc/clang_plugin/TreeHeightReduction.hpp:781-790 | afterwards nothing defines or uses an erased value and the block is well-formed |
| ThrErase.EraseAllKeeps | etc/clang_plugin/TreeHeightReduction.hpp:781-790 | every value that was not erased is unchanged |
| ThrErase.EraseOrgInsts | etc/clang_plugin/TreeHeightReduction.hpp:781-790 | the loop over the collected instructions, each unused when its turn comes |
| ThrIr.SpliceKeeps | etc/clang_plugin/TreeHeightReduction.hpp:1097-1120 | inserting code before a line and replacing its uses keeps every other value, if the code computes the value of the line |
| ThrIr.EraseKeeps | etc/clang_plugin/TreeHeightReduction.hpp:781-790 | erasing an unused line changes no other value |
| ThrSplice.RepresentedValue | etc/clang_plugin/TreeHeightReduction.hpp:885-920 | the operation tree has the value of its root in the block |
| ThrSplice.CodeValue | etc/clang_plugin/TreeHeightReduction.hpp:1126-1156 | the emitted lines compute what their operands stand for |
| ThrSplice.CodeReplaces | etc/clang_plugin/TreeHeightReduction.hpp:1097-1120 | the emitted lines are new to the block and compute the value of the root |
| ThrSplice.InsertedSsa | etc/clang_plugin/TreeHeightReduction.hpp:1097-1120 | definitions still precede their uses after the insertion |
| ThrSplice.InsertedKeeps | etc/clang_plugin/TreeHeightReduction.hpp:1097-1120 | all other values are unchanged and the new root has the value of the old |
| ThrSplice.OriginalsErasable | etc/clang_plugin/TreeHeightReduction.hpp:842-851 | after the replacement the originals can be erased in the order in which they were collected |
| ThrBasicBlock.IsNodeCandidate | etc/clang_plugin/TreeHeightReduction.hpp:1186-1206 | decides the candidate predicate by a loop over the users |
| ThrBasicBlock.IsRootCandidate | etc/clang_plugin/TreeHeightReduction.hpp:1169-1183 | a target with at least one operand that is a candidate |
| ThrBasicBlock.ConstructLeft | etc/clang_plugin/TreeHeightReduction.hpp:899-907 | the first operand becomes the left child |
| ThrBasicBlock.ConstructRight | etc/clang_plugin/TreeHeightReduction.hpp:909-917 | the second operand becomes the right child |
| ThrBasicBlock.ConstructTree | etc/clang_plugin/TreeHeightReduction.hpp:885-920 | a fresh, proper, linked tree that represents the value: inner nodes are the candidates, with their operands as children; a leaf is marked as a phi if and only if a phi of the block defines it |
| ThrBasicBlock.UnmeasuredIsStored | etc/clang_plugin/TreeHeightReduction.hpp:178-186 | in a newly built tree exactly the phi leaves are stale |
| ThrBasicBlock.LeavesOfBlock | etc/clang_plugin/TreeHeightReduction.hpp:178-186 | the stale leaves of a new tree are exactly those that phis of the block define, and the leaves start when the block says: 100000 for a phi, 0 for anything else |
| ThrBasicBlock.IsLegalToApply | etc/clang_plugin/TreeHeightReduction.hpp:759-779 | at least two leaves, which is exactly a tree that is not a leaf |
| ThrBasicBlock.CollectInsts | etc/clang_plugin/TreeHeightReduction.hpp:932-943 | the instructions of the inner nodes in breadth-first order |
| ThrBasicBlock.ReduceTree | etc/clang_plugin/TreeHeightReduction.hpp:811-842 | tree, legality, instructions to erase, reduction and emission for one root; done exactly when the root is a candidate; with the phis of the block at 100000 and all other values at 0 the code is ready by the worst latency of the tree, and by its own if no phi delays a final group |
| ThrReplaced.RootReplaced | etc/clang_plugin/TreeHeightReduction.hpp:826-852 | one root: the new block is well-formed and nothing in it uses an erased value |
| ThrReplaced.RootKeepsValues | etc/clang_plugin/TreeHeightReduction.hpp:826-852 | one root: every surviving value is unchanged and the new root has the value of the old |
| ThrReplaced.RootKeepsEffects | etc/clang_plugin/TreeHeightReduction.hpp:826-852 | one root: all other instructions stay, in their order, of the same kind and width, on operands of the same values and with the same result, whatever they mean |
| ThrReplaced.Survivor | etc/clang_plugin/TreeHeightReduction.hpp:826-852 | one root: every line that is not erased keeps its operands, with the new root in place of the old one |
| ThrScan.RootsExplained | etc/clang_plugin/TreeHeightReduction.hpp:1169-1206 | a root is an addition or multiplication that no comparison uses, with an operand that is such an instruction and has no other use, and is itself used once or by no instruction that could be a target |
| ThrScan.UsesKept | etc/clang_plugin/TreeHeightReduction.hpp:826-852 | one root: values outside the tree have as many uses as before |
| ThrScan.LeafUsed | etc/clang_plugin/TreeHeightReduction.hpp:1095-1122 | the emitted code uses every leaf of the tree |
| ThrScan.NoNewRoot | etc/clang_plugin/TreeHeightReduction.hpp:846-856 | replacing one root makes no root of an instruction behind it, so that the scan need not go back |
| ThrBasicBlock.ReduceRoot | etc/clang_plugin/TreeHeightReduction.hpp:811-858 | one root on the block: the code of an outcome of its reduction replaces it, in time for the latencies of its width |
| ThrBasicBlock.TryRoot | etc/clang_plugin/TreeHeightReduction.hpp:799-858 | one instruction of the scan: it is replaced exactly when it is a root and was not emitted by the scan itself |
| ThrBasicBlock.ScanRoot | etc/clang_plugin/TreeHeightReduction.hpp:846-856 | after one root fewer original instructions are left, and those that the scan has passed still are no roots |
| ThrBasicBlock.RunOnBasicBlock | etc/clang_plugin/TreeHeightReduction.hpp:794-862 | the whole scan terminates; at the end no instruction of the original block that is left could be reduced; the block changes exactly when there was a root to reduce, and each change replaces a root by the code of an outcome of its reduction; all other instructions stay in order, on operands with the same values and with the same results, for every meaning and input |
| CsroaTypes.SlotsAreScalars | etc/clang_plugin/CustomScalarReplacementOfAggregatesPass.cpp:3320-3344 | the enumeration has at least as many slots as the counted scalars, and as many exactly when no aggregate is empty |
| CsroaTypes.RankIsPosition | etc/clang_plugin/CustomScalarReplacementOfAggregatesPass.cpp:3120-3143 | the sum built from sub-element counts is the position of the path in the depth-first enumeration |
| CsroaTypes.PositionIsRank | etc/clang_plugin/CustomScalarReplacementOfAggregatesPass.cpp:3120-3143 | ... and every position below the count is the flat index of its path |
| CsroaTypes.RankInjective | etc/clang_plugin/CustomScalarReplacementOfAggregatesPass.cpp:3362-3463 | different full paths have different flat indices |
| CsroaExpand.Allocas.PushElement | etc/clang_plugin/CustomScalarReplacementOfAggregatesPass.cpp:2203-2213 | one element: its type, and its place at the end of its parent's vector |
| CsroaExpand.Allocas.ExpandAlloca | etc/clang_plugin/CustomScalarReplacementOfAggregatesPass.cpp:2196-2237 | the recursion leaves the alloca and everything created below it complete, and everything else untouched; it creates as many scalars as the type counts |
| CsroaExpand.Allocas.ExpandElement | etc/clang_plugin/CustomScalarReplacementOfAggregatesPass.cpp:2203-2213 | one element is created and expanded; what was created before it stays complete |
| CsroaExpand.Allocas.ExpandAllocas | etc/clang_plugin/CustomScalarReplacementOfAggregatesPass.cpp:2239-2290 | afterwards every listed variable is expanded down to scalars and still a root; all others are as they were |
| CsroaExpand.DisaggregatedKept | etc/clang_plugin/CustomScalarReplacementOfAggregatesPass.cpp:2239-2290 | expanding other roots keeps an expanded variable expanded |
| CsroaExpand.ElementKept | etc/clang_plugin/CustomScalarReplacementOfAggregatesPass.cpp:2239-2290 | ... into the same scalars |
| CsroaExpand.ExpandedIsDisaggregated | etc/clang_plugin/CustomScalarReplacementOfAggregatesPass.cpp:2196-2237 | an expanded alloca is expanded down to scalars |
| CsroaExpand.ElementExists | etc/clang_plugin/CustomScalarReplacementOfAggregatesPass.cpp:2939-2970 | every full path leads to a scalar of the right type |
| CsroaExpand.ElementInjective | etc/clang_plugin/CustomScalarReplacementOfAggregatesPass.cpp:2939-2970 | different variables or different paths never lead to the same scalar |
| CsroaExpand.ExpandTypes | etc/clang_plugin/CustomScalarReplacementOfAggregatesPass.cpp:3120-3143 | the slots are the full paths in depth-first order with their scalar types |
| CsroaAccess.EmitFlatIndex | etc/clang_plugin/CustomScalarReplacementOfAggregatesPass.cpp:3346-3463 | the emitted index arithmetic; it fails if and only if the walk through the types meets a constant that is no field or a run-time index into a struct without fields or with fields of different types |
| CsroaAccess.StepAdds | etc/clang_plugin/CustomScalarReplacementOfAggregatesPass.cpp:3362-3463 | one index adds the number of scalars before its element, modulo 2^32, for arrays, constant fields and dynamic indices into structs of equal fields |
| CsroaAccess.FlatIsRank | etc/clang_plugin/CustomScalarReplacementOfAggregatesPass.cpp:3346-3463 | for every in-bounds path, constant or dynamic, the flat index is the rank of the path modulo 2^32 |
| CsroaAccess.NullArguments | etc/clang_plugin/CustomScalarReplacementOfAggregatesPass.cpp:3496-3507 | one null operand per slot of the accessed type |
| CsroaAccess.BuildChain | etc/clang_plugin/CustomScalarReplacementOfAggregatesPass.cpp:3565-3683 | one branch per slot that may be the target; the i-th pointer parameter carries the scalar of the i-th branch; there is one parameter per slot of the accessed type, and those without a branch stay null |
| CsroaAccess.CandidateIsReachable | etc/clang_plugin/CustomScalarReplacementOfAggregatesPass.cpp:3568-3599 | a slot of the depth of the path gets a branch if and only if it has the accessed type and some values of the run-time indices lead to it |
| CsroaAccess.ProcessSinglePointer | etc/clang_plugin/CustomScalarReplacementOfAggregatesPass.cpp:3282-3690 | constant paths are replaced by their scalar, dynamic ones by the flat index and the chain of branches; it fails if and only if the types and indices say so: a constant that is no element on the way, or in a path with a run-time index the errors of EmitFlatIndex |
| CsroaAccess.AccessIsElement | etc/clang_plugin/CustomScalarReplacementOfAggregatesPass.cpp:3282-3690 | a rewritten access in bounds goes to the scalar of the path that the original access denotes |
| CsroaRuns.StoreKeepsRelated | etc/clang_plugin/CustomScalarReplacementOfAggregatesPass.cpp:3282-3690 | a store keeps the two memories related |
| CsroaRuns.RunsAgree | etc/clang_plugin/CustomScalarReplacementOfAggregatesPass.cpp:3147-3698 | on every run of in-bounds loads and stores of expanded variables, and of any other computation on variables and other memory, the scalar program loads the same values and ends with the same variables and a related memory |
| CsroaProgram.RewriteProgram | etc/clang_plugin/CustomScalarReplacementOfAggregatesPass.cpp:3991-4010 | every load and store of a program is rewritten, unless the pass stops at one, which the types of the variables and the indices of the access decide |
| CsroaAccess.StopsInBounds | etc/clang_plugin/CustomScalarReplacementOfAggregatesPass.cpp:3282-3463 | an access in bounds is an error if and only if one of its run-time indices chooses among the fields of a struct that are not all of one type; constant indices, and run-time indices into arrays and other structs, never are |
| CsroaProgram.Disaggregate | etc/clang_plugin/CustomScalarReplacementOfAggregatesPass.cpp:2239-2374 | from unexpanded globals and allocas: they are expanded, the program is rewritten, initial memories are related, and on every run in bounds from related memories the result loads the same values and ends with the same variables and a related memory |
| CsroaProgram.ProgramStarts | etc/clang_plugin/CustomScalarReplacementOfAggregatesPass.cpp:2321-2374 | memories that hold the original initialisers by path and the new ones by scalar are related, whatever undefined values are |
| CsroaCount.GetNumElements | etc/clang_plugin/fpga_callbacks.hpp:30-69 | the worklist terminates and counts the decayed dimension times the recursive scalar count |
| CsroaCount.PushKids | etc/clang_plugin/fpga_callbacks.hpp:45-61 | an aggregate appends its element types in order |
| CsroaCount.IsExpandable | etc/clang_plugin/fpga_callbacks.hpp:71-95 | at most 32 scalars and 128 bytes, with the count of the worklist |
| CsroaCount.ExpandableIndices | etc/clang_plugin/fpga_callbacks.hpp:71-95 | within the bounds every flat index is the position of a slot and below 32 |
| CsroaCount.PartialBelow | etc/clang_plugin/fpga_callbacks.hpp:71-95 | ... and so is every partial sum of the flat index |
| CsroaGlobals.Globals.PushElement | etc/clang_plugin/CustomScalarReplacementOfAggregatesPass.cpp:2329-2346 | a new global has the element type and the element of the initialiser |
| CsroaGlobals.Globals.InsertElement | etc/clang_plugin/CustomScalarReplacementOfAggregatesPass.cpp:2346-2347 | it is inserted right behind the current index of the worklist |
| CsroaGlobals.Globals.ExpandOne | etc/clang_plugin/CustomScalarReplacementOfAggregatesPass.cpp:2323-2373 | one iteration completes its global and leaves less to expand |
| CsroaGlobals.Globals.ExpandGlobals | etc/clang_plugin/CustomScalarReplacementOfAggregatesPass.cpp:2321-2374 | the worklist that grows in front terminates; the listed globals are expanded down to scalars, each initialised with the constant at its path of the original initialiser; nothing else gets elements, so that roots stay roots |
| CsroaGlobals.LeafInitialiser | etc/clang_plugin/CustomScalarReplacementOfAggregatesPass.cpp:2321-2374 | each leaf reached by a path is initialised with the constant that the original initialiser has there by its shape: the element at each index of an aggregate, zero everywhere in a zero, undefined everywhere in an undefined value |
| CsroaGlobals.AllLeavesHold | etc/clang_plugin/CustomScalarReplacementOfAggregatesPass.cpp:2321-2374 | ... for all listed globals at once, from what the worklist leaves |
| CsroaGeps.AddFirstExact | etc/clang_plugin/CustomScalarReplacementOfAggregatesPass.cpp:2851-2891 | adding the first index is exact if and only if the sum fits its width, whether the last index was extended or truncated |
| CsroaGeps.WidthIsPower | etc/clang_plugin/CustomScalarReplacementOfAggregatesPass.cpp:2851-2891 | the number of values of a width is the power of 2 |
| CsroaGeps.ComputeBaseAndIdxs | etc/clang_plugin/CustomScalarReplacementOfAggregatesPass.cpp:2813-2936 | the recursion finds the base, builds the flattened index path of the address computations up to the first cast, for variables and arguments, and says whether there was none |
| CsroaGeps.BaseIsBottom | etc/clang_plugin/CustomScalarReplacementOfAggregatesPass.cpp:2813-2936 | the base is the variable or argument below all casts and address computations; the answer is yes if and only if there is one and no cast is above it |
| CsroaGeps.PlainPartIsLargest | etc/clang_plugin/CustomScalarReplacementOfAggregatesPass.cpp:2813-2936 | what was computed before the first cast is plain, and all that is plain below the pointer is part of it |
| CsroaGeps.ArgumentPlace | etc/clang_plugin/CustomScalarReplacementOfAggregatesPass.cpp:2813-2936 | the path from an argument, taken as an array, leads where the computations lead from its first object |
| CsroaGeps.AddMoves | etc/clang_plugin/CustomScalarReplacementOfAggregatesPass.cpp:2851-2891 | adding the first index moves the place by whole objects if and only if the element at the sum lies that far on and has the same type |
| CsroaGeps.AddableCases | etc/clang_plugin/CustomScalarReplacementOfAggregatesPass.cpp:2851-2891 | which holds, unless the sum overflows, over whole variables, for an added 0, through arrays, and between the fields of a struct whose fields all have one type |
| CsroaGeps.FlatteningKeepsPlace | etc/clang_plugin/CustomScalarReplacementOfAggregatesPass.cpp:2827-2919 | when every addition is of this kind, the flattened path names the element that the computations name one after the other |
| CsroaGeps.FlattenableIsExact | etc/clang_plugin/CustomScalarReplacementOfAggregatesPass.cpp:2827-2919 | and the condition is exact at every step of the chain |
| CsroaGeps.StructStepExact | etc/clang_plugin/CustomScalarReplacementOfAggregatesPass.cpp:2851-2891 | moving on from a field of a struct: the flattened path names the right field if and only if the field at the sum exists, has the same type and lies that many objects on |
| CsroaGeps.PlaceIsRank | etc/clang_plugin/CustomScalarReplacementOfAggregatesPass.cpp:2895-2898 | a path into the variable has its flat index as offset |
| CsroaChains.ComputeOperands | etc/clang_plugin/CustomScalarReplacementOfAggregatesPass.cpp:2851-2919 | the recursion on operands: two constants are added at once, otherwise an addition is emitted |
| CsroaChains.OnlyNeededAdditions | etc/clang_plugin/CustomScalarReplacementOfAggregatesPass.cpp:2851-2919 | no addition of two constants is emitted |
| CsroaChains.ConstantsStay | etc/clang_plugin/CustomScalarReplacementOfAggregatesPass.cpp:2851-2919 | constant indices need no addition and stay constants |
| CsroaChains.FlattenedValues | etc/clang_plugin/CustomScalarReplacementOfAggregatesPass.cpp:2851-2919 | executing the emitted additions gives the operands the values of the flattened path and leaves older variables alone |
| CsroaChains.AccessIsPlace | etc/clang_plugin/CustomScalarReplacementOfAggregatesPass.cpp:3160-3180 | in bounds, the computations name, one after the other, the place of the access through the flattened operands displaced by the index that the code drops; they name it itself if and only if that index is 0 |
| CsroaChains.AccessThroughGeps | etc/clang_plugin/CustomScalarReplacementOfAggregatesPass.cpp:3160-3698 | in and out of bounds: the rewritten access goes to the scalar that the computations name if and only if the dropped index steps over no scalar modulo 2^32 and no constant index differs from the path of the scalar |
| CsroaChains.WalkIsFlat | etc/clang_plugin/CustomScalarReplacementOfAggregatesPass.cpp:3346-3463 | the emitted flat index is the distance of the place that the indices walk to, modulo 2^32, also out of bounds |
| CsroaCheckArg.UsedByArgsOnly | etc/clang_plugin/CustomScalarReplacementOfAggregatesPass.cpp:4075-4106 | terminates on cyclic call graphs and is false exactly when a path avoiding the inspected arguments leads to a use that is not a call |
| CsroaCheckArg.LoadedOnly | etc/clang_plugin/CustomScalarReplacementOfAggregatesPass.cpp:4109-4166 | ... exactly when such a path leads to an argument that is no pointer to a scalar, is passed to a wrapper, or is used otherwise than by a load |
| CsroaCheckArg.UsedByArgsOnlyWrapper | etc/clang_plugin/CustomScalarReplacementOfAggregatesPass.cpp:4075-4106 | every argument that the first one is passed on to, through any calls, is used by calls only |
| CsroaCheckArg.LoadedOnlyWrapper | etc/clang_plugin/CustomScalarReplacementOfAggregatesPass.cpp:4109-4166 | every argument that the first one is passed on to, through calls of ordinary functions, points to a scalar and is loaded from or passed on so only |
| CsroaCheckArg.CutPath | etc/clang_plugin/CustomScalarReplacementOfAggregatesPass.cpp:4077-4103 | a path that returns to its start can be cut, so inspecting each argument once per path is enough |
| FixpointDeletion.Module.DeleteFunctionsRecursively | etc/clang_plugin/CustomScalarReplacementOfAggregatesPass.cpp:453-476 | terminates, erases only what is unused at that moment, and leaves the largest set in which each function is used from outside or by a survivor, for every iteration order |
| FixpointDeletion.Module.RemoveDead | etc/clang_plugin/GepiCanonicalizationPass.cpp:742-764 | the rounds of dead instructions reach the same largest set |
| CsroaSignature.Signature.PushElement | etc/clang_plugin/CustomScalarReplacementOfAggregatesPass.cpp:2424-2433 | a new parameter, its null operand and its place in the vector of its parent |
| CsroaSignature.Signature.ExpandArg | etc/clang_plugin/CustomScalarReplacementOfAggregatesPass.cpp:2397-2501 | terminates on type and pending decay; parameters and null operands grow by the same pre-order list, and every slot gets the children of its type |
| CsroaSignature.Signature.AddArgument | etc/clang_plugin/CustomScalarReplacementOfAggregatesPass.cpp:2561-2576 | one argument: its own slot, which asks for the pointee and its decay exactly if it is an expandable pointer, then the elements of that slot, of their elements, and so on |
| CsroaSignature.ExpandSignature | etc/clang_plugin/CustomScalarReplacementOfAggregatesPass.cpp:2551-2597 | the slots of the original arguments, each with its type, and behind each the parameters it is expanded into: for an expandable pointer exactly one per object below it, copies of the pointee when it decays and everything inside, that points to the object, or to its elements if it is an array; none for any other argument; the null operands have the same types |
| CsroaSignature.ObjectsApart | etc/clang_plugin/CustomScalarReplacementOfAggregatesPass.cpp:2397-2501 | different objects have different parameters |
| CsroaSignature.CallOperands | etc/clang_plugin/CustomScalarReplacementOfAggregatesPass.cpp:2696-2711 | the operands of a rewritten call have, position by position, the types of the parameters |
| CsroaSignature.SlotKeepsArgument | etc/clang_plugin/CustomScalarReplacementOfAggregatesPass.cpp:2568-2568 | each original argument has its own slot, in order, with its own type |
| CopyLowering.RecursiveCopyLowering | etc/clang_plugin/GepiCanonicalizationPass.cpp:124-197 | the recursion emits one load and store per scalar path, behind the given indices |
| CopyLowering.LowerChunkCopy | etc/clang_plugin/GepiCanonicalizationPass.cpp:295-303 | equal sizes start behind a zero index, a ratio of at least 2 steps over the objects that fit, any other ratio copies one object without a leading index, which for a scalar is an error; a division by 0 may give anything |
| CopyLowering.CopiesFitting | etc/clang_plugin/GepiCanonicalizationPass.cpp:295-303 | the objects that fit are copied if and only if the sizes are equal or the ratio is at least 2 |
| CopyLowering.CopiesWholeChunk | etc/clang_plugin/GepiCanonicalizationPass.cpp:295-303 | the whole chunk is copied if and only if the ratio is a whole number |
| CopyLowering.CopiesNothing | etc/clang_plugin/GepiCanonicalizationPass.cpp:295-303 | an object without scalars is copied by nothing, also when its size is 0 |
| CopyLowering.ChunkPositions | etc/clang_plugin/GepiCanonicalizationPass.cpp:124-197 | the emitted copies touch every scalar of the chunk once, in order |
| CopyLowering.LoweredCopyIsChunkCopy | etc/clang_plugin/GepiCanonicalizationPass.cpp:283-303 | the lowered copy does what the chunk copy did, for overlapping ranges and with stores between its load and its store |
| PtrIterator.OperateAdds | etc/clang_plugin/PtrIteratorSimplifyPass.hpp:174-222 | the index has the value of the 32-bit sum of both operands, and an addition is emitted only of operands that are not both constant and neither 0 |
| PtrIterator.FollowOne | etc/clang_plugin/PtrIteratorSimplifyPass.hpp:342-347 | an external is followed one address computation further, until its root |
| PtrIterator.SearchRound | etc/clang_plugin/PtrIteratorSimplifyPass.hpp:321-348 | one round intersects what all externals have met so far and follows each one step |
| PtrIterator.FirstSharedIsUnique | etc/clang_plugin/PtrIteratorSimplifyPass.hpp:350-364 | the first round with a common address has exactly one, so the case of several never occurs |
| PtrIterator.CommonExternal | etc/clang_plugin/PtrIteratorSimplifyPass.hpp:315-367 | the search terminates and finds a common address exactly when the externals have one, and the nearest one, which is computed from all others |
| PtrIterator.ExternalOffset | etc/clang_plugin/PtrIteratorSimplifyPass.hpp:381-402 | the loop from an external to the common address accumulates the offset |
| PtrIterator.OffsetIsDistance | etc/clang_plugin/PtrIteratorSimplifyPass.hpp:381-402 | the offset is the distance from where the walk ends, in 32 bits |
| PtrIterator.EndIsCommon | etc/clang_plugin/PtrIteratorSimplifyPass.hpp:381-402 | which is the common address exactly if the external is computed from it |
| PtrLoop.RewriteUses | etc/clang_plugin/PtrIteratorSimplifyPass.hpp:459-571 | the worklist of uses terminates and gives a new index to exactly the uses of pointers derived from a replaced phi |
| PtrLoop.ExternalOffsets | etc/clang_plugin/PtrIteratorSimplifyPass.hpp:379-402 | every external operand that was found gets its offset |
| PtrLoop.RewriteLoop | etc/clang_plugin/PtrIteratorSimplifyPass.hpp:315-571 | the loop is rewritten exactly when the externals that were found, at least one, have a common address, and with respect to the nearest one |
| PtrLoop.EnterTracks | etc/clang_plugin/PtrIteratorSimplifyPass.hpp:432-457 | entering a block with phis keeps indices equal to the 32-bit distances of their pointers |
| PtrLoop.ExecTracks | etc/clang_plugin/PtrIteratorSimplifyPass.hpp:507-529 | executing an address computation keeps them |
| PtrLoop.RunTracks | etc/clang_plugin/PtrIteratorSimplifyPass.hpp:421-571 | on every run every derived pointer has the index that is its distance from the common address in 32 bits |
| PtrLoop.TracksIffReplaced | etc/clang_plugin/PtrIteratorSimplifyPass.hpp:421-610 | the rewritten loop follows the original on every run if and only if every operand of a replaced phi is an external that was found or is derived from a replaced phi, which is when the final assertion of the code holds |
| PtrLoop.UnreplacedIsUndefined | etc/clang_plugin/PtrIteratorSimplifyPass.hpp:449-453 | otherwise, be the operand an address computation, another phi, a load or an external that was not found, some run gives a phi without an index |
| PtrLoop.RunMeasures | etc/clang_plugin/PtrIteratorSimplifyPass.hpp:531-553 | on every run, following the computations of an address computation of the loop gives its distance from where they end |
| PtrLoop.DerivedIsAnchored | etc/clang_plugin/PtrIteratorSimplifyPass.hpp:531-553 | which for a pointer derived from a replaced phi is the common address |
| PtrLoop.RewrittenAddress | etc/clang_plugin/PtrIteratorSimplifyPass.hpp:513-517 | a rewritten address is the original one if and only if the distance fits in 32 bits |
| PtrLoop.ComparisonAgrees | etc/clang_plugin/PtrIteratorSimplifyPass.hpp:531-563 | comparisons of a rewritten pointer with any other one, which is followed to where its computations end: equality and order are those of both distances modulo 2^32; if it is computed from the common address and distances fit 32 bits, equality agrees, and the unsigned order agrees exactly when both pointers are on the same side of the base and the rewritten operand is the first, or on different sides and it is the second, or they are equal |
| PtrReach.ScanOperands | etc/clang_plugin/PtrIteratorSimplifyPass.hpp:95-118 | the externals among the operands up to the first one that is not accepted |
| PtrReach.Visit | etc/clang_plugin/PtrIteratorSimplifyPass.hpp:69-172 | the recursion terminates, reaches nothing but what every closed set with the use has, and finds the externals of what it reaches |
| PtrReach.Search | etc/clang_plugin/PtrIteratorSimplifyPass.hpp:276-292 | from the uses of the candidate exactly those uses are reached that a chain of address computations of the loop with single indices, and of phis of the loop with accepted operands only, leads to, and exactly the externals found that these look at; an unaccepted use makes the candidate unfeasible unless it is also reached from the other uses |
| PtrReach.ReachedByTrail | etc/clang_plugin/PtrIteratorSimplifyPass.hpp:69-172 | what every closed set with the uses of the candidate has is what such a chain leads to |
| PtrReach.FoundIs | etc/clang_plugin/PtrIteratorSimplifyPass.hpp:95-118 | an external is found at a use if it is an operand there and all operands before it are accepted |
| PtrReach.AcceptedIs | etc/clang_plugin/PtrIteratorSimplifyPass.hpp:95-172 | a use is accepted in an address computation of the loop, and in a phi or comparison all of whose operands are |
| PtrReach.RewriteCandidate | etc/clang_plugin/PtrIteratorSimplifyPass.hpp:274-571 | one candidate: search, feasibility, common address and rewriting; the phis and externals of the rewritten loop are those that chains of uses from the candidate lead to |
| PtrReach.LoopExplained | etc/clang_plugin/PtrIteratorSimplifyPass.hpp:421-457 | the loop that is rewritten has the phis that were reached and all address computations of the loop with a single index |
| PtrReach.UsesExplained | etc/clang_plugin/PtrIteratorSimplifyPass.hpp:459-571 | ... and of these and of all comparisons the operands that are values of the loop |
| PtrReach.AcceptedPhis | etc/clang_plugin/PtrIteratorSimplifyPass.hpp:421-610 | if the operands of all reached phis are accepted, the rewriting is right exactly when those from the loop are derived from reached phis |
| PtrReach.UnacceptedFails | etc/clang_plugin/PtrIteratorSimplifyPass.hpp:421-610 | if a reached phi takes a value of the loop that is no phi or address computation, it is wrong, though the candidate may be feasible |

## Left out

- ThrBasicBlock.RunOnBasicBlock: a block is straight-line code, and what other blocks define is a leaf; a tree that reaches through single-use instructions into another block is only covered when those instructions are counted into the block. Uses elsewhere are operands of opaque lines at the end. Loops over functions and loop nests, optimisation remarks and the floating-point variant are not modelled.
- ThrBasicBlock.ReduceRoot: instruction flags that the new instructions take over, poison values and constant folding by the instruction builder are not modelled.
- ThrApply.ApplyTreeHeightReduction: the early return for a node that is no target is unreachable, because only targets become inner nodes, and is an assertion of the model.
- ThrLatency.UpdateNodeLatency: total costs are truncated like the `int` parameter but never overflow; latencies are reals instead of doubles.
- CsroaAccess.ProcessSinglePointer: argument bases with their decayed dimensions, and the pointers passed to calls, are not part of this model.
- CsroaAccess.AccessIsElement: empty aggregates take a slot without a scalar and are excluded, as are types whose scalar count exceeds a 32-bit word.
- CsroaSignature.Signature.ExpandArg: the dimension vectors and names of expanded arguments are not modelled, and slots are numbered without a 64-bit bound.
- PtrLoop.RunTracks: indices are 32-bit values, as the rewriting assumes; a value is captured when its instruction executes, so that dominance between an index and its uses is not modelled.
- PtrReach.RewriteCandidate: the limit of six rewritten phis per run of the pass, and the test on arguments of byte type, are not modelled, nor that the loop has been changed by the time the next candidate is tried.
- PtrLoop.RewriteUses: address computations with several indices, which the code rewrites by their first index, count as other values of the loop.
- Function versioning and the agreement of call traces: they depend on details of the call graph analysis.
- Profit heuristics in doubles and inlining thresholds.
- Initialiser lowering, select lowering and the computation of indices of canonical address computations: they hold in special cases only.
- LLVM mechanics: block splitting, cloning, names, attributes, pass registration and printing. Emission is appending to a list.
- The alias analysis and the expansion of memory operations: their algorithms are not part of this model.
