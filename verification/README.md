# Verified models of some LLVM algorithms

Dafny models of algorithms from LLVM's analyses and examples, with proofs of what they promise.
`dafny verify dfyconfig.toml` checks all of them. Each part is modelled in the form the code has:
objects with fields are classes, loops are loops, and every such method is proved against a function
or a relation that says what it should compute; the main results are then theorems about those, for
all inputs and all runs.

**Andersen-style alias analysis** (`CflGraph`, `CflRules`, `CflPaths`, `CflAnders`, `CflAttrs`,
`CflInfo`). The closure of value aliases (seven match states) and memory aliases is stated as rules.
The worklist is proved to end with exactly their least solution, whatever order facts and neighbours
are visited in. Dropping pairs of equal nodes is proved to lose no alias, by a simulation between
match states, and aliasing is proved symmetric, so that queries are. The match states are proved to
accept exactly certain paths of assignments and memory aliases, which are told without states. The
attributes that are propagated afterwards are proved to be exactly those that flow, and a query is
proved to say no exactly under a condition on attributes and paths.

**The BrainF compiler** (`BrainFMachine`, `BrainFSource`, `BrainFSpec`, `BrainFRuns`,
`BrainFCorrect`, `BrainF`). A small machine runs basic blocks with phis instruction by instruction;
an interpreter takes the text character by character. `BrainFSpec` says what has been emitted, and
what is held back, after each character. The compiler with its lookahead, run folding and recursion
is proved to produce that program, to accept exactly the balanced texts and to name the right error
for the others; the program is proved to show the same trace as the text in both directions, on
every prefix of every run, and with bounds checks to touch only cells that are allocated.

**Alias sets** (`AliasSets`, `AliasSaturation`, `AliasSetTracker`). The live sets of the tracker are
proved to be the connected components of the may-alias graph, independent of insertion order,
through merging, forwarding and path compression, although must sets are asked through one pointer.
The count that decides saturation is proved to be the number of pointers linked to two that need not
alias, so that whether a tracker saturates depends on its pointers alone; after it there is a single
set.

**Control-flow searches** (`CfgPaths`, `CfgBackedges`, `CfgReachability`). The explicit-stack search
for back edges is proved to cut all reachable cycles by edges of which none can be spared; the
budgeted reachability search is proved to answer yes exactly if there is a path or there are as many
blocks to look at as its budget, with the inside of loops skipped.

**Block masses** (`MassArithmetic`, `MassWeights`, `MassDistribution`, `MassShares`, `MassFlow`) and
**irreducible headers** (`IrreducibleHeaders`). Probabilities are scaled in 32-bit digits as in the
code. Both ways of combining weights, normalising, dithering and handing mass through a loop are
modelled, down to the theorems that no unit of mass is lost, that every share is nearly proportional
to its weight, and that mass leaves and comes back over the right edges only.

**Address arithmetic** (`Powers`, `Bits`, `LinearExpressions`, `GepIndices`, `GepDistance`,
`GepLowestBit`, `GepStates`, `GepHeuristic`, `GepLimits`, `GepAliasing`, `GepSigns`, `GepBehind`).
Linear decomposition modulo 2^W, the difference of index lists, and the verdicts drawn from it about
two addresses. The code reasons about distances as integers of unlimited size, but addresses have 64
bits, so each rule is judged in both senses. The rule of the lowest bit is right at 64-bit addresses
for all inputs, and misses nothing if nothing is known of the variables; nor does the rule for known
signs, as integers. The rules for constants, for indices that are not negative and for two variables
a constant apart are right as integers, and at 64-bit addresses if the accesses stay within one
stretch of memory (`NoAliasHoldsInMemory`, `NoAliasHoldsOverIntegers`); the last one adds a size to
an offset in 64 bits as well and needs that sum to fit. `GepLimits` and `GepBehind` hold an input
that breaks each of these conditions (the reach for every rule that needs it, the sums, the offset,
the scales), and the exact conditions for two variables a constant apart and for one index behind a
positive offset with steps that cannot leap over both accesses.

**Steensgaard summaries** (`SteensSummary`) and **a barrier** (`Barrier`). The summary is proved to
lose no sharing; exactly when it relates nothing more is proved as a condition on the return values,
which holds if there is one set for them and can fail with two. The barrier is a state machine over
any number of threads.

Conditions on oracles are stated as predicates: `AliasSets.Sensible` (the alias oracle is symmetric
and pointers that must alias answer alike), `CfgReachability.LoopsOk` and `DominatorsOk` (what loop
information and dominators mean), `LinearExpressions.Knows` (bits reported to be zero are),
`GepStates.IsState`, `InRange` and `GepAliasing.SignsRight` (extended variables agree with their
values in the bits they have and lie in their ranges, equal values are equal, known signs are
right), `BrainFRuns.Placed` (with bounds checks the array neither starts at address zero nor reaches
the end of the address space).

Where a proof would drag an invariant through methods that only pass it on, the invariant is stated
under a quantifier that is opened by mentioning a constant predicate (`Look`, `Now`, `InText`,
`Turn`); this has no other meaning.

## Model

| member | source | states |
|---|---|---|
| `CflGraph.CFLGraph.AddNode` | lib/Analysis/CFLGraph.h:91-97 | adding a node keeps the graph well formed (edges join nodes and are listed at both ends), makes it and every level above it nodes, ors its attributes in and leaves all edges alone |
| `CflGraph.CFLGraph.AddEdge` | lib/Analysis/CFLGraph.h:105-113 | lists the edge with its offset once more at each of its ends and keeps the graph well formed; all other lists and all attributes stay |
| `CflGraph.CFLGraph.GetNode` | lib/Analysis/CFLGraph.h:115-120 | hands back the edges and attributes of a node, from which all its assignments can be read, or nothing if the value has no such level |
| `CflGraph.WithEdgeAssigns` | lib/Analysis/CFLGraph.h:105-113 | after adding an edge the assignments are the old ones and the new one |
| `CflRules.LeastExists` | lib/Analysis/CFLAndersAliasAnalysis.cpp:574-703 | the seed, assign, reverse-assign and memory rules have a least solution on every well-formed graph, with and without the test From != To |
| `CflRules.LeastIsUnique` | lib/Analysis/CFLAndersAliasAnalysis.cpp:574-703 | the least solution is the only one, so it does not depend on the order of discovery |
| `CflRules.FilterLosesNoAlias` | lib/Analysis/CFLAndersAliasAnalysis.cpp:565-572 | two distinct nodes are related at some state, or are memory aliases, under the rules that drop equal pairs iff they are under the rules that do not |
| `CflRules.SimulatesIsSimulation` | lib/Analysis/CFLAndersAliasAnalysis.cpp:652-702 | the order on match states, with read and write variants collapsed, is a simulation of the state machine |
| `CflRules.AliasingIsSymmetric` | lib/Analysis/CFLAndersAliasAnalysis.cpp:616-703 | in the least solution "related at some state" and the memory aliases are symmetric although the machine is directional |
| `CflRules.OnlyDistinctPairs` | lib/Analysis/CFLAndersAliasAnalysis.cpp:152-154 | the least solution relates only distinct nodes, so the assertion of insert never fails |
| `CflPaths.FactsArePaths` | lib/Analysis/CFLAndersAliasAnalysis.cpp:616-703 | the seven match states told without a state machine: two nodes are related at a state iff a path of assignments, reverse assignments and memory aliases joins them in which no reverse assignment follows an assignment and no two memory aliases follow each other, and whose labels and end are those the state stands for |
| `CflPaths.PathMemsAreLeast` | lib/Analysis/CFLAndersAliasAnalysis.cpp:620-642 | the memory aliases are the least set that holds what lies below any two nodes joined by such a path over it |
| `CflPaths.DistinctAliasesArePaths` | lib/Analysis/CFLAndersAliasAnalysis.cpp:565-703 | what the analysis computes, with equal pairs dropped on the way: two different nodes are related iff such a path joins them |
| `CflAnders.ReachabilitySet.Insert` | lib/Analysis/CFLAndersAliasAnalysis.cpp:153-162 | adds one fact and tells whether it is new; all other facts stay |
| `CflAnders.AliasMemSet.Insert` | lib/Analysis/CFLAndersAliasAnalysis.cpp:190-195 | adds one memory alias and tells whether it is new; all others stay |
| `CflAnders.Propagate` | lib/Analysis/CFLAndersAliasAnalysis.cpp:565-572 | records a fact unless its nodes are equal, and puts exactly the new facts on the worklist |
| `CflAnders.MemAliasStep` | lib/Analysis/CFLAndersAliasAnalysis.cpp:624-642 | a new memory alias together with the facts it makes restores the invariant of the closure |
| `CflAnders.ExtensionStep` | lib/Analysis/CFLAndersAliasAnalysis.cpp:652-702 | walking all edges of an item restores the invariant of the closure |
| `CflAnders.CheckMemoryAliases` | lib/Analysis/CFLAndersAliasAnalysis.cpp:620-642 | adds the memory alias below a pair and all facts that follow from it |
| `CflAnders.WalkStateMachine` | lib/Analysis/CFLAndersAliasAnalysis.cpp:667-702 | adds every extension of the item by one edge, at the state its own state leads to, and nothing else |
| `CflAnders.ProcessWorkListItem` | lib/Analysis/CFLAndersAliasAnalysis.cpp:605-703 | one item: the invariant holds again with the item done and exactly the new facts pending |
| `CflAnders.InitializeWorkList` | lib/Analysis/CFLAndersAliasAnalysis.cpp:574-595 | the facts at the start are exactly the seeds of all assignment edges |
| `CflAnders.ProcessWorkList` | lib/Analysis/CFLAndersAliasAnalysis.cpp:766-770 | one round over the worklist in whatever order it lists its items |
| `CflAnders.BuildReachability` | lib/Analysis/CFLAndersAliasAnalysis.cpp:759-771 | the loop ends, and then the two sets are exactly the least solution of the rules |
| `CflAnders.Progress` | lib/Analysis/CFLAndersAliasAnalysis.cpp:765-771 | each round adds a fact or leaves nothing pending, so the loop ends |
| `CflAttrs.AliasAttrMap.Add` | lib/Analysis/CFLAndersAliasAnalysis.cpp:213-220 | ors attributes in and tells whether that changed anything |
| `CflAttrs.NothingPendingIsLeast` | lib/Analysis/CFLAndersAliasAnalysis.cpp:721-746 | when the list is empty a node has an attribute iff a node that held it at first leads to it |
| `CflAttrs.BuildAttrMap` | lib/Analysis/CFLAndersAliasAnalysis.cpp:705-749 | ends with the least attribute map: a node has an attribute iff it flows there along value aliases and steps one level down, early break included |
| `CflInfo.EqualRange` | lib/Analysis/CFLAndersAliasAnalysis.cpp:521-529 | in a list sorted by value, the range found holds exactly the entries of the value |
| `CflInfo.FunctionInfo.PopulateAttrMap` | lib/Analysis/CFLAndersAliasAnalysis.cpp:340-351 | every value with any level is known, with the attributes of its top level |
| `CflInfo.FunctionInfo.PopulateAliasMap` | lib/Analysis/CFLAndersAliasAnalysis.cpp:353-372 | the list of each top-level value holds exactly its top-level aliases, sorted |
| `CflInfo.FunctionInfo.MayAlias` | lib/Analysis/CFLAndersAliasAnalysis.cpp:490-563 | answers exactly as the relations and attributes say, for all sizes; `NoAliasIff` says when that is no |
| `CflInfo.NoAliasIff` | lib/Analysis/CFLAndersAliasAnalysis.cpp:500-562 | two different values are said not to alias iff both are known and: one has attribute 1 or 3 and the other none at all; or neither has 1 or 3 and just one has an attribute other than 0; or neither has any but 0 and no path of assignments and memory aliases joins them |
| `CflInfo.MayAliasIsSymmetric` | lib/Analysis/CFLAndersAliasAnalysis.cpp:490-563 | with the lists that are kept, mayAlias(a, b) equals mayAlias(b, a) for all values and all sizes of the accesses |
| `CflInfo.NoAliasIsSound` | lib/Analysis/CFLAndersAliasAnalysis.cpp:516-562 | two known local values said not to alias are related by no path, not even under the unfiltered rules |
| `CflInfo.BuildInfoFrom` | lib/Analysis/CFLAndersAliasAnalysis.cpp:751-779 | the whole analysis of a function: what is kept describes the least solution and the attributes that flow along it |
| `BrainFSource.SkipBackFindsOpen` | examples/BrainF/BrainF.cpp:426-467 | in a balanced text the bracket found by scanning back is the innermost open loop |
| `BrainFSource.SkipForwardFindsClose` | examples/BrainF/BrainF.cpp:426-467 | in a balanced text scanning forward finds the bracket that closes the loop |
| `BrainFSpec.SpecAtOk` | examples/BrainF/BrainF.cpp:192-476 | after every prefix of the text the emitted blocks, the insertion block and the open loops fit together |
| `BrainFSpec.BlocksAtGrowIntoProgram` | examples/BrainF/BrainF.cpp:192-476 | what was emitted for a prefix stays in place in the whole program; only phis get their second half |
| `BrainFRuns.RunCheckedMove` | examples/BrainF/BrainF.cpp:246-276 | a checked move ends in the next block with the head moved, or in the error block if the head left the array |
| `BrainFRuns.RunChange` | examples/BrainF/BrainF.cpp:278-290 | a folded change adds its sum to the cell, modulo 256 |
| `BrainFRuns.RunRead` | examples/BrainF/BrainF.cpp:209-224 | reading stores the low byte of what getchar returns, 255 at the end of the input |
| `BrainFRuns.RunWrite` | examples/BrainF/BrainF.cpp:226-244 | writing puts the byte of the cell out |
| `BrainFRuns.RunTest` | examples/BrainF/BrainF.cpp:441-457 | the loop test enters the body or leaves the loop as the cell says, whichever way it was entered |
| `BrainFCorrect.FollowKept` | examples/BrainF/BrainF.cpp:339-421 | a character that joins a run, or is no command, is matched by nothing emitted yet |
| `BrainFCorrect.FollowCharacter` | examples/BrainF/BrainF.cpp:192-476 | one character of the text is matched by the instructions it made, with what is held back accounted for |
| `BrainFCorrect.MachineAgreesWithInterpreter` | examples/BrainF/BrainF.cpp:192-476 | every state of every run of the emitted blocks, terminating or not, shows what interpreting the characters one at a time shows at some point; a run that returns leaves the same tape and nothing allocated; with bounds checks every load, store, clearing and freeing is within the cells allocated at that time |
| `BrainFCorrect.InterpreterAgreesWithMachine` | examples/BrainF/BrainF.cpp:192-476 | the converse: whatever the interpreter shows, and however it ends, the emitted blocks do so too |
| `BrainF.ExplainsNext` | examples/BrainF/BrainF.cpp:328-424 | one more character of lookahead keeps: what is written and the two symbols held make up the text so far |
| `BrainF.ExplainsWritten` | examples/BrainF/BrainF.cpp:202-322 | writing a symbol out moves it from what is held to what is written |
| `BrainF.LoopOpened` | examples/BrainF/BrainF.cpp:292-312 | opening a loop adds its frame and loses no symbol |
| `BrainF.LoopClosed` | examples/BrainF/BrainF.cpp:426-467 | closing a loop completes the phi and the test of the innermost open loop |
| `BrainF.Compiler.Header` | examples/BrainF/BrainF.cpp:65-190 | the header emits the allocation, the footer and the error block |
| `BrainF.Compiler.WriteMove` | examples/BrainF/BrainF.cpp:246-276 | emits the move and, with bounds checks, the test and a new block |
| `BrainF.Compiler.OpenLoop` | examples/BrainF/BrainF.cpp:292-312 | emits the jump to the test, half of the phi and a new body |
| `BrainF.Compiler.CloseLoop` | examples/BrainF/BrainF.cpp:432-465 | emits the other half of the phi, the test and the block after the loop |
| `BrainF.Compiler.ReadSymbol` | examples/BrainF/BrainF.cpp:324-424 | reads one character, or notices the end; what has been written and the symbols held still make up the text |
| `BrainF.Compiler.TakeSymbol` | examples/BrainF/BrainF.cpp:329-423 | a new symbol joins the symbol held, takes its place or waits as the next one |
| `BrainF.Compiler.ReadSymbols` | examples/BrainF/BrainF.cpp:324-424 | reads on until the current symbol is complete; nothing read is lost |
| `BrainF.Compiler.ReadLoop` | examples/BrainF/BrainF.cpp:192-476 | compiles a loop body or the whole text, calling itself for inner loops; returns with the builder as specified or with the error the text deserves |
| `BrainF.Compiler.Parse` | examples/BrainF/BrainF.cpp:53-63 | succeeds exactly on balanced texts, tells an extra from a missing bracket, and leaves the specified program |
| `AliasSets.HomesAreComponents` | lib/Analysis/AliasSetTracker.cpp:250-266 | if no two sets alias and none can be divided, two pointers share a set iff a path of may-aliases links them |
| `AliasSets.FirstAnswersForAll` | lib/Analysis/AliasSetTracker.cpp:181-190 | a must set asked through its first pointer answers for all of them |
| `AliasSets.MergedMusts` | lib/Analysis/AliasSetTracker.cpp:45-58 | merging two sets that do not alias always gives a may set |
| `AliasSets.MergedMaySize` | lib/Analysis/AliasSetTracker.cpp:60-65 | the count of pointers in may sets stays right when sets merge |
| `AliasSets.ForwardedTarget` | lib/Analysis/AliasSetTracker.cpp:79-80 | a set that begins to forward takes along everything that forwarded to it |
| `AliasSets.ShortenedTarget` | include/llvm/Analysis/AliasSetTracker.h:258-268 | path compression does not change where forwarding leads |
| `AliasSets.MergeUpToKeeps` | lib/Analysis/AliasSetTracker.cpp:250-266 | while sets are merged for a new pointer all sets stay separate, and the one found holds exactly what reaches the pointer |
| `AliasSets.AddNewKeeps` | lib/Analysis/AliasSetTracker.cpp:324-333 | after a new pointer is added the sets are separate and indivisible again |
| `AliasSets.ExactSets` | lib/Analysis/AliasSetTracker.cpp:291-334 | before saturation the live sets are exactly the connected components; a set is must iff all its pointers must alias; its access is that of its pointers |
| `AliasSets.OrderDoesNotMatter` | lib/Analysis/AliasSetTracker.cpp:291-334 | two trackers that were given the same pointers in any order hold the same sets |
| `AliasSets.OneSet` | lib/Analysis/AliasSetTracker.cpp:551-587 | after saturation one set holds every pointer and counts as read and written |
| `AliasSetTrackers.AliasSet.MergeSetIn` | lib/Analysis/AliasSetTracker.cpp:37-97 | merges members, access and kind, forwards the other set and tells by how much may sets grow |
| `AliasSetTrackers.AliasSet.AliasesPointer` | lib/Analysis/AliasSetTracker.cpp:174-208 | a must set asks its first pointer, a may set all; the set that holds everything always says yes |
| `AliasSetTrackers.AliasSet.AddPointer` | lib/Analysis/AliasSetTracker.cpp:117-153 | appends the pointer; a must set it need not alias becomes a may set |
| `AliasSetTrackers.AliasSetTracker.MergeAliasSetsForPointer` | lib/Analysis/AliasSetTracker.cpp:250-266 | merges all live sets that alias a pointer into the first of them |
| `AliasSetTrackers.AliasSetTracker.GetForwardedTarget` | include/llvm/Analysis/AliasSetTracker.h:258-268 | follows and shortens forwarding |
| `AliasSetTrackers.AliasSetTracker.GetAliasSetForPointer` | lib/Analysis/AliasSetTracker.cpp:291-334 | finds or makes the set of a pointer in the saturated, known and new cases |
| `AliasSetTrackers.AliasSetTracker.MergeAllAliasSets` | lib/Analysis/AliasSetTracker.cpp:551-587 | sends every set, forwarding ones too, straight to one set that holds everything |
| `AliasSaturation.MayPointersGrow` | lib/Analysis/AliasSetTracker.cpp:589-603 | a pointer linked to two that need not alias stays so as more pointers are tracked, so saturation is never taken back |
| `AliasSaturation.TotalIsMayPointers` | lib/Analysis/AliasSetTracker.cpp:62-65 | as long as the tracker is not saturated its running count is the number of tracked pointers that are linked to two different pointers that need not alias |
| `AliasSetTrackers.AliasSetTracker.SaturateIfTooMany` | lib/Analysis/AliasSetTracker.cpp:597-601 | merges everything exactly if that number is above 250 |
| `AliasSetTrackers.AliasSetTracker.AddPointer` | lib/Analysis/AliasSetTracker.cpp:589-603 | keeps the tracker valid and the pointer in the set returned; the tracker is saturated afterwards iff more than 250 of the pointers now tracked are linked to two that need not alias |
| `AliasSetTrackers.AliasSetTracker.AddAll` | lib/Analysis/AliasSetTracker.cpp:589-603 | after any sequence of additions everything is in one set iff more than 250 of the pointers are linked to two that need not alias; otherwise the live sets are the connected components, each must iff its pointers all must alias and accessed exactly as they were added |
| `AliasSetTrackers.TrackAll` | lib/Analysis/AliasSetTracker.cpp:589-603 | the same from the outside: for every list of additions a new tracker can be filled with it, and which of the two it comes to depends on the set of pointers alone, not on their order |
| `AliasSets.AccessesAsListed` | lib/Analysis/AliasSetTracker.cpp:594-595 | the accesses of a pointer are exactly those of the additions that name it |
| `CfgBackedges.PassByTree` | lib/Analysis/CFG.cpp:44-52 | a successor found on the stack is never one the search went down to by that edge |
| `CfgBackedges.StackCloses` | lib/Analysis/CFG.cpp:50-52 | the stack from a block on is a path from it to the top that uses no reported edge |
| `CfgBackedges.EndCutsAllCycles` | lib/Analysis/CFG.cpp:27-66 | without the reported edges no cycle that can be reached from the entry is left |
| `CfgBackedges.EndClosesCycles` | lib/Analysis/CFG.cpp:50-52 | every reported edge closes a real cycle that no other reported edge cuts |
| `CfgBackedges.NextSuccessor` | lib/Analysis/CFG.cpp:44-53 | goes on to the next successor not visited and reports the ones on the stack |
| `CfgBackedges.GoOn` | lib/Analysis/CFG.cpp:38-65 | one round goes down to a new block or up, so the search ends |
| `CfgBackedges.FindFunctionBackedges` | lib/Analysis/CFG.cpp:27-66 | ends on every graph; its edges cut all reachable cycles, and each closes one that the others do not cut |
| `CfgReachability.GetOutermostLoop` | lib/Analysis/CFG.cpp:113-120 | finds the outermost loop around a block |
| `CfgReachability.LoopContainsBoth` | lib/Analysis/CFG.cpp:123-128 | true iff both blocks have the same outermost loop, and then one reaches the other |
| `CfgReachability.DominatorReaches` | lib/Analysis/CFG.cpp:148-149 | a block that dominates one that can be reached does reach it |
| `CfgReachability.SearchVisit` | lib/Analysis/CFG.cpp:159-166 | jumping to the exits of a loop leaves no path out unconsidered |
| `CfgReachability.NothingLeft` | lib/Analysis/CFG.cpp:167-171 | when the worklist is empty no start reaches the block |
| `CfgReachability.LeadsOnIs` | lib/Analysis/CFG.cpp:159-166 | whatever outermost loop a block lies in is the one whose exits come next |
| `CfgReachability.GotToFew` | lib/Analysis/CFG.cpp:154-171 | when the worklist is empty every block that can be got to in this way has been visited |
| `CfgReachability.IsPotentiallyReachableFromMany` | lib/Analysis/CFG.cpp:130-172 | true iff some start has a path to the block, or there are 32 blocks that can be got to from the starts by going from a block in no loop to a successor and from any other to an exit of its outermost loop; all of these can be reached |
| `MassArithmetic.Plus` | include/llvm/Analysis/BlockFrequencyInfoImpl.h:91-95 | adding masses saturates at full mass |
| `MassArithmetic.Minus` | include/llvm/Analysis/BlockFrequencyInfoImpl.h:101-105 | subtracting masses stops at empty mass |
| `MassArithmetic.CountLeadingZeros` | lib/Analysis/BlockFrequencyInfoImpl.cpp:214-216 | finds the highest bit set |
| `MassArithmetic.RoundsToNearest` | lib/Analysis/BlockFrequencyInfoImpl.cpp:185-191 | shifting and adding the last bit shifted out rounds to the nearest |
| `MassArithmetic.Probability` | lib/Support/BranchProbability.cpp:37-46 | a probability is within half a unit of 2^-31 of the quotient of its numbers, at most one, and exactly one if they are equal |
| `MassArithmetic.Scale` | lib/Support/BranchProbability.cpp:66-106 | scaling in 32-bit digits is exact multiplication and division, rounded down, up to the largest number |
| `MassWeights.CombinedSum` | lib/Analysis/BlockFrequencyInfoImpl.cpp:218-228 | combining keeps the sum if 64 bits hold it, and never makes it larger |
| `MassWeights.CombinedPermuted` | lib/Analysis/BlockFrequencyInfoImpl.cpp:138-141 | it does not matter how the weights were sorted |
| `MassDistribution.CombineWeightsBySorting` | lib/Analysis/BlockFrequencyInfoImpl.cpp:136-155 | leaves one weight for each target: the sum of all weights to it, saturated |
| `MassDistribution.CombineAdjacent` | lib/Analysis/BlockFrequencyInfoImpl.cpp:143-154 | compacts runs of equal targets in place |
| `MassDistribution.CombineWeightsByHashing` | lib/Analysis/BlockFrequencyInfoImpl.cpp:157-173 | leaves the same by hashing, whatever order the table has |
| `MassDistribution.CombineWeights` | lib/Analysis/BlockFrequencyInfoImpl.cpp:175-183 | either combiner leaves one weight for each target |
| `MassDistribution.ScaledSumFits` | lib/Analysis/BlockFrequencyInfoImpl.cpp:205-243 | if sum and number of the weights leave room for rounding up (at most 2^31 weights, sum plus 2^33 for each below 2^65) the scaled sum fits into 32 bits |
| `MassDistribution.Distribution.Add` | lib/Analysis/BlockFrequencyInfoImpl.cpp:103-118 | the total is the sum modulo 2^64, and overflow is noted |
| `MassDistribution.Distribution.Normalize` | lib/Analysis/BlockFrequencyInfoImpl.cpp:193-244 | for every list: leaves distinct targets with amounts from 1 to 2^32 - 1 that sum to the total; each is the sum of the old weights to its target, at most 2^64 - 1, divided by 2^s and rounded to the nearest but not to 0, with s as far as the total needs; or 1 for a single target; the total fits into 32 bits if there is room for rounding up |
| `MassDistribution.NormalizedKeepsOrder` | lib/Analysis/BlockFrequencyInfoImpl.cpp:231-243 | smaller combined weights never get larger amounts |
| `MassDistribution.ScaledIsRounded` | lib/Analysis/BlockFrequencyInfoImpl.cpp:240-240 | the shift, the bit that is added and the lower limit of 1 make the nearest number of units, halves upwards, but at least one |
| `MassDistribution.TwoTargetsFitIff` | lib/Analysis/BlockFrequencyInfoImpl.cpp:231-243 | for two targets whose sum has overflowed the last assertion, that the total fits into 32 bits, holds iff not both weights are at least 2^64 - 2^32 |
| `MassDistribution.TwoTargetsFit` | lib/Analysis/BlockFrequencyInfoImpl.cpp:231-243 | so such weights meet what the assertion demands although there is no room for rounding |
| `MassDistribution.TotalTooLarge` | lib/Analysis/BlockFrequencyInfoImpl.cpp:231-243 | the assertion fails for two weights of 2^64 - 1 |
| `MassFlow.DitheringDistributer.TakeMass` | lib/Analysis/BlockFrequencyInfoImpl.cpp:92-101 | takes the part of what is left that the weight has of the weights left, up to (mass + 2^32) / 2^32, and all that is left for the last one |
| `MassFlow.GiveAddsMass` | lib/Analysis/BlockFrequencyInfoImpl.cpp:410-432 | as long as there is not more than full mass no addition saturates |
| `MassFlow.HandOutConserves` | lib/Analysis/BlockFrequencyInfoImpl.cpp:400-433 | a nonempty normalised list hands out exactly the given mass |
| `MassShares.NextShare` | lib/Analysis/BlockFrequencyInfoImpl.cpp:92-101 | if what is left is the part of the whole that the weights left have, up to k roundings, then so are the next share and the rest, up to k + 1 |
| `MassFlow.SharesAreProportional` | lib/Analysis/BlockFrequencyInfoImpl.cpp:400-433 | every share is the part its weight has of the total, up to one rounding for it and each weight before it, and the shares add up to the mass |
| `MassShares.OwnShare` | lib/Analysis/BlockFrequencyInfoImpl.cpp:410-432 | with one weight for each target a block gets its own share and nothing else |
| `MassFlow.HandOutReceived` | lib/Analysis/BlockFrequencyInfoImpl.cpp:400-433 | blocks grow by the shares of the local weights that name them, the backedge mass by those of backedges, and the exits by the others, each with its target |
| `MassFlow.LoopMass.AddToDist` | lib/Analysis/BlockFrequencyInfoImpl.cpp:266-325 | adds the edge with its weight, or 1 for none: as a backedge iff it leads to the header, as an exit iff it leads to no block of the loop; refused iff it goes back to another block of the loop |
| `MassFlow.LoopMass.DistributeMass` | lib/Analysis/BlockFrequencyInfoImpl.cpp:400-433 | hands the mass of a block out over its normalised distribution, each target getting its nearly proportional share, for all weights of which the assertion on the total holds |
| `MassFlow.LoopMass.PropagateMassToSuccessors` | include/llvm/Analysis/BlockFrequencyInfoImpl.h:1201-1230 | the mass of a block moves on to later blocks, the header and the exits, to the last unit, shared out nearly in proportion to the weights of its edges |
| `MassFlow.HandedOnWhere` | include/llvm/Analysis/BlockFrequencyInfoImpl.h:1201-1230 | mass leaves only over edges to blocks outside, with the target recorded, and comes back only over edges to the header |
| `MassFlow.LoopMass.ComputeExitMass` | lib/Analysis/BlockFrequencyInfoImpl.cpp:355-360 | exit mass is full mass less the backedge mass |
| `MassFlow.LoopMass.ComputeMassInLoop` | include/llvm/Analysis/BlockFrequencyInfoImpl.h:1110-1124 | fails exactly if an edge goes back to another block than the header; otherwise backedge and exit mass make up full mass, and the exit mass by subtraction is the sum of the recorded exits; each of these leads to a successor outside the loop; nothing comes back if no edge leads to the header, everything if no edge leads out; in between each block in turn hands its mass on |
| `IrreducibleHeaders.IrreducibleGraph.AddEdge` | lib/Analysis/BlockFrequencyInfoImpl.cpp:614-625 | an edge is listed once more at both of its ends, predecessors before successors |
| `IrreducibleHeaders.ComponentOfMirrored` | lib/Analysis/BlockFrequencyInfoImpl.cpp:614-625 | in a graph built from edges, cycles over predecessors are round trips over successors, and entries are the successors of outside nodes |
| `IrreducibleHeaders.CyclesHaveHeaders` | lib/Analysis/BlockFrequencyInfoImpl.cpp:679-698 | every cycle inside the component passes a header |
| `IrreducibleHeaders.ForwardHeaders` | lib/Analysis/BlockFrequencyInfoImpl.cpp:685-691 | if all edges between nodes that are no entries go forward, no node but an entry is a header |
| `IrreducibleHeaders.FindEntries` | lib/Analysis/BlockFrequencyInfoImpl.cpp:651-669 | finds exactly the nodes with a predecessor outside |
| `IrreducibleHeaders.FindExtras` | lib/Analysis/BlockFrequencyInfoImpl.cpp:678-706 | finds exactly the other nodes that an edge comes back to, and lists the rest |
| `IrreducibleHeaders.FindIrreducibleHeaders` | lib/Analysis/BlockFrequencyInfoImpl.cpp:644-709 | splits the component into sorted headers and others: headers are the nodes with a predecessor outside, and those with a predecessor that does not come before them and has none outside itself; every cycle inside contains one; if all edges between nodes that are no entries go forward, headers are exactly the entries |
| `Bits.LowestBit` | lib/Analysis/BasicAliasAnalysis.cpp:1241-1241 | taking away all bits but the lowest leaves the greatest power of two that divides the number |
| `Bits.OrOfDisjoint` | lib/Analysis/BasicAliasAnalysis.cpp:221-228 | or of disjoint bits is a sum |
| `LinearExpressions.BinMeans` | lib/Analysis/BasicAliasAnalysis.cpp:200-263 | an operation with a constant, applied to a linear form, gives the linear form that is computed |
| `LinearExpressions.DecomposeIsLinear` | lib/Analysis/BasicAliasAnalysis.cpp:181-320 | value = scale * zext(base) + offset modulo 2^W for all values of the variables, with depth cut-offs and the clearing of NUW |
| `LinearExpressions.GetLinearExpression` | lib/Analysis/BasicAliasAnalysis.cpp:181-320 | the recursion over mutable scale, offset, extension and marks computes exactly that decomposition |
| `LinearExpressions.BaseIsDeepest` | lib/Analysis/BasicAliasAnalysis.cpp:181-320 | the base is the operand some levels down, and there nothing more can be looked through: it is no addition, subtraction, multiplication or shift by a constant, no `or` of bits known to be disjoint, no zero extension and no constant that is still scaled, unless the depth of 6 has been reached or the value above is a zero extension of something that may wrap |
| `LinearExpressions.MarksAreKept` | lib/Analysis/BasicAliasAnalysis.cpp:214-275 | the marks left say that none of the operations looked through may wrap: no shift, and nothing unmarked but an `or` |
| `GepIndices.SubtractIndex` | lib/Analysis/BasicAliasAnalysis.cpp:1634-1655 | one index is subtracted from the first entry for the same variable, erased with it, or added negated |
| `GepIndices.LessForm` | lib/Analysis/BasicAliasAnalysis.cpp:1634-1655 | one subtraction changes the value of the list by the value of the index: modulo 2^64 always, exactly if the scale stays within 64 bits |
| `GepIndices.StepExactOnlyIfFits` | lib/Analysis/BasicAliasAnalysis.cpp:1634-1655 | and exactly for all valuations only then |
| `GepIndices.DifferenceForm` | lib/Analysis/BasicAliasAnalysis.cpp:1623-1657 | the difference of two lists has the value of the difference: modulo 2^64 always, exactly if no scale leaves 64 bits on the way |
| `GepIndices.DifferenceEntries` | lib/Analysis/BasicAliasAnalysis.cpp:1623-1657 | the difference is about variables of the two lists, its scales fit into 64 bits, and none of them becomes zero |
| `GepIndices.DifferenceTwice` | lib/Analysis/BasicAliasAnalysis.cpp:1634-1655 | if no variable comes twice in the first list, none does in the difference, whatever the other list holds: nothing that cancels is left apart |
| `GepIndices.GetIndexDifference` | lib/Analysis/BasicAliasAnalysis.cpp:1623-1657 | the loops over both lists compute that difference |
| `GepDistance.FormIsMultiple` | lib/Analysis/BasicAliasAnalysis.cpp:1205-1250 | a power of two that divides all scales divides the value, whatever the variables are |
| `GepDistance.LowestBitKeepsApart` | lib/Analysis/BasicAliasAnalysis.cpp:1238-1250 | if the test on the lowest bit of all scales succeeds, the two byte ranges never meet at 64-bit addresses, whatever the variables are |
| `GepDistance.TestLowestBit` | lib/Analysis/BasicAliasAnalysis.cpp:1205-1250 | the loop and the bit tricks decide that test; `LowestBitIsExact` says what it means |
| `GepLowestBit.ScaleReaches` | lib/Analysis/BasicAliasAnalysis.cpp:1238-1250 | a variable with a scale whose lowest bit is bit k can reach every multiple of 2^k modulo 2^64 |
| `GepLowestBit.LowestBitIsExact` | lib/Analysis/BasicAliasAnalysis.cpp:1238-1250 | for known positive sizes and different variables the test says yes iff for all values of the variables the two byte ranges do not meet at 64-bit addresses |
| `GepDistance.ApartWithinMemory` | lib/Analysis/BasicAliasAnalysis.cpp:1171-1270 | accesses that are apart as integers and lie within one stretch of 2^64 bytes are apart at 64-bit addresses |
| `GepDistance.AdjustedIsSignedRemainder` | lib/Analysis/BasicAliasAnalysis.cpp:326-330 | shifting up and back takes the low bits of the offset as a signed number |
| `GepHeuristic.MinDistanceIsLeast` | lib/Analysis/BasicAliasAnalysis.cpp:1695-1704 | numbers known to differ by d modulo 2^w are at least min(d, 2^w - d) apart |
| `GepHeuristic.PairDiffers` | lib/Analysis/BasicAliasAnalysis.cpp:1676-1697 | in every state two variables decomposed into the same base and scale differ by the difference of their offsets modulo 2^w |
| `GepHeuristic.FarApartIsApart` | lib/Analysis/BasicAliasAnalysis.cpp:1659-1711 | if the heuristic says yes and those sums do not wrap, the accesses do not overlap, as integers, in any state |
| `GepHeuristic.ConstantOffsetHeuristic` | lib/Analysis/BasicAliasAnalysis.cpp:1659-1711 | says yes exactly for two variables with the same extensions, opposite scales, the same base and a gap that both sizes fit into, as computed in 64 bits |
| `GepHeuristic.FarApartIs` | lib/Analysis/BasicAliasAnalysis.cpp:1659-1711 | the same in numbers: scales and bases of the decompositions agree, and each size plus the offset, modulo 2^64, is at most the smaller distance that the difference of the offsets modulo 2^w allows, times the scale |
| `GepLimits.TwoValuesApartIff` | lib/Analysis/BasicAliasAnalysis.cpp:1659-1711 | a pair keeps two accesses apart in all states iff both of its distances do: as integers, and at 64-bit addresses by their remainders |
| `GepLimits.FarApartRightIff` | lib/Analysis/BasicAliasAnalysis.cpp:1706-1710 | over the integers a yes of the heuristic, for a pair that has both of its values and whose scaled range with twice the offset lies within 2^64, is right iff the sums do not wrap |
| `GepLimits.OffsetPairRightIff` | lib/Analysis/BasicAliasAnalysis.cpp:1706-1710 | so for every x and x + c of any width and extension in that range; both values do occur |
| `GepLimits.OffsetPairApartIff` | lib/Analysis/BasicAliasAnalysis.cpp:1659-1711 | at 64-bit addresses x and x + c keep two accesses apart in all states iff both distances leave room modulo 2^64 |
| `GepLimits.WrappingIsWrong` | lib/Analysis/BasicAliasAnalysis.cpp:1706-1710 | two 32-bit indices x and x + 3 for which the heuristic says yes and a state in which the accesses overlap |
| `GepLimits.NearInMemory` | lib/Analysis/BasicAliasAnalysis.cpp:1659-1711 | two 64-bit indices for which the heuristic says yes, rightly as integers, and a state in which the accesses share bytes at 64-bit addresses |
| `GepBehind.StaysBehindIff` | lib/Analysis/BasicAliasAnalysis.cpp:1219-1256 | one index that is zero-extended, known not to be negative or known to be negative, with a scale of the sign the rule accepts whose steps cannot leap over both accesses: the rule says no alias, and that holds at 64-bit addresses iff the greatest value of the variable (2^w - 1, 2^(w-1) - 1 or 2^(w-1)) leaves room |
| `GepSigns.StaysBehindIsExact` | lib/Analysis/BasicAliasAnalysis.cpp:1219-1256 | for any number of different variables with scales other than 0 the rule for known signs says yes iff the offset is positive, the second access ends before it, and the sum of the indices is never negative for any integers with the signs that are known |
| `GepSigns.DifferenceIsDistinct` | lib/Analysis/BasicAliasAnalysis.cpp:1623-1657 | what two addresses are compared by is about different variables, as these conditions ask, if the first list is |
| `GepBehind.WrapsAroundMemory` | lib/Analysis/BasicAliasAnalysis.cpp:1252-1256 | the rule for indices that are not negative says no alias of a zero-extended index that has a run in which the accesses share bytes at 64-bit addresses |
| `GepBehind.WrapsAroundKnownZero` | lib/Analysis/BasicAliasAnalysis.cpp:1252-1256 | the same with a 64-bit index that is known not to be negative |
| `GepBehind.ComesAround` | lib/Analysis/BasicAliasAnalysis.cpp:1180-1203 | the rule for constants says no alias of an access so long that it comes around to the other one at 64-bit addresses |
| `GepBehind.OffsetWraps` | lib/Analysis/BasicAliasAnalysis.cpp:1138-1203 | an offset difference that leaves 64 bits: no alias is said of accesses that overlap as integers |
| `GepBehind.ScaleWraps` | lib/Analysis/BasicAliasAnalysis.cpp:1139-1256 | a scale difference that leaves 64 bits: the same |
| `GepAliasing.ConstantVerdictIsApart` | lib/Analysis/BasicAliasAnalysis.cpp:1180-1203 | two addresses a constant apart: a no is right, for known sizes it is said iff no byte is common, and with an unknown size only of an access of any size at or behind the end of a known one |
| `GepAliasing.AliasConstant` | lib/Analysis/BasicAliasAnalysis.cpp:1180-1203 | follows that verdict |
| `GepAliasing.FormNotNegative` | lib/Analysis/BasicAliasAnalysis.cpp:1219-1237 | a sum of indices of known sign that are none of them negative is not negative |
| `GepAliasing.AliasByIndices` | lib/Analysis/BasicAliasAnalysis.cpp:1171-1270 | says must iff there is no index and no offset, and no iff one of the rules does: constant, lowest bit, no negative index, distance of a pair |
| `GepAliasing.NoAliasHoldsInMemory` | lib/Analysis/BasicAliasAnalysis.cpp:1135-1270 | two lists of indices and two offsets said not to alias share no byte at 64-bit addresses in any run, whether or not scales and offsets wrap: always if the lowest bit decides, otherwise if the accesses stay within one stretch of memory and, for the last rule only, its sums fit |
| `GepAliasing.NoAliasHoldsOverIntegers` | lib/Analysis/BasicAliasAnalysis.cpp:1135-1270 | the same as integers, if neither the offset nor a scale leaves 64 bits; no reach is limited |
| `GepAliasing.MustAliasIsSame` | lib/Analysis/BasicAliasAnalysis.cpp:1171-1172 | two addresses said to be the same are equal modulo 2^64 |
| `GepAliasing.SameListsCancel` | lib/Analysis/BasicAliasAnalysis.cpp:1167-1172 | the difference of lists that begin alike is what one has more, so lexically identical addresses are said to be the same |
| `GepAliasing.AliasGeps` | lib/Analysis/BasicAliasAnalysis.cpp:1135-1270 | subtracting offsets and indices and applying the rules gives a verdict that holds in these senses in every run |
| `SteensSummary.PlaceIsRelated` | lib/Analysis/CFLSteensAliasAnalysis.cpp:147-176 | every place below a return value or parameter is related to the value recorded for the set there |
| `SteensSummary.KeptIsComplete` | lib/Analysis/CFLSteensAliasAnalysis.cpp:128-194 | any two values in the same set are related, and visible attributes are listed for them |
| `SteensSummary.RelatedIsTogether` | lib/Analysis/CFLSteensAliasAnalysis.cpp:147-176 | if the sets of the function agree, related values share a set, are the same, or are in no set |
| `SteensSummary.ExactIffSetsAgree` | lib/Analysis/CFLSteensAliasAnalysis.cpp:128-194 | a complete summary that lists only real sharing relates exactly the values that share a set iff going together (sharing, or both in no set) is transitive and kept by dereferencing |
| `SteensSummary.SetsAgreeIffReturnsDo` | lib/Analysis/CFLSteensAliasAnalysis.cpp:128-194 | for one root for each parameter that comes down to the return values: at each level, what shares a set with them shares one with each other, and goes on sharing one level down |
| `SteensSummary.ExactIffReturnsAgree` | lib/Analysis/CFLSteensAliasAnalysis.cpp:128-194 | so the summary is exact iff the return values agree in this sense |
| `SteensSummary.SharingRelates` | lib/Analysis/CFLSteensAliasAnalysis.cpp:178-185 | two values that each share a set with a third are related by every complete summary, whether or not they share one |
| `SteensSummary.SummaryIsExact` | lib/Analysis/CFLSteensAliasAnalysis.cpp:128-194 | with one root for each index the summary is exact |
| `SteensSummary.TwoReturnsRelateTooMuch` | lib/Analysis/CFLSteensAliasAnalysis.cpp:178-185 | a function with two return values in different sets and a parameter in each: every complete summary of it, the one the constructor makes too, is not exact |
| `SteensSummary.FunctionInfo.AddToRetParamRelations` | lib/Analysis/CFLSteensAliasAnalysis.cpp:147-176 | going down from one root keeps the summary right and complete, and ends even if sets lie below each other in a circle |
| `SteensSummary.FunctionInfo.constructor` | lib/Analysis/CFLSteensAliasAnalysis.cpp:128-194 | up to fifty parameters the summary lists only real sharing and implies all of it, and implies nothing more iff the return values agree; above it is empty |
| `Barrier.StepKeeps` | examples/ParallelJIT/ParallelJIT.cpp:167-234 | every step of every thread keeps: nobody is past the barrier before the release, and nobody waits after it |
| `Barrier.NobodyLeavesEarly` | examples/ParallelJIT/ParallelJIT.cpp:167-194 | in every interleaving of any number of threads nobody leaves before all have arrived |
| `Barrier.AssertionHolds` | examples/ParallelJIT/ParallelJIT.cpp:175-175 | the assertion on the counter never fails |
| `Barrier.NeverStuck` | examples/ParallelJIT/ParallelJIT.cpp:167-217 | as long as a thread is not through some thread can go on |
| `Barrier.EveryRunEnds` | examples/ParallelJIT/ParallelJIT.cpp:167-234 | every run ends after at most five steps of each thread, with all threads through |
| `Barrier.WaitForThreads.Block` | examples/ParallelJIT/ParallelJIT.cpp:167-193 | counts the thread and wakes everyone, or waits |
| `Barrier.WaitForThreads.ReleaseThreads` | examples/ParallelJIT/ParallelJIT.cpp:197-216 | wakes everyone if enough threads wait, or waits |
| `Barrier.WaitForThreads.UnblockThreads` | examples/ParallelJIT/ParallelJIT.cpp:219-234 | resets both counters and wakes everyone who waits |
| `Barrier.CanGoOnIff` | examples/ParallelJIT/ParallelJIT.cpp:167-234 | a thread can go on exactly if the state machine has a step for it |
| `Barrier.WaitForThreads.GoOn` | examples/ParallelJIT/ParallelJIT.cpp:167-234 | locking, the two calls and unlocking are all steps there are, and each is one |
| `Barrier.WaitForThreads.RunToEnd` | examples/ParallelJIT/ParallelJIT.cpp:167-234 | whichever thread that can go on is chosen each time, all come through |

## Left out

- LLVM's own plumbing: passes, values and types, printing, and the visitor that builds the alias graph from instructions. Graphs, expressions and distributions are given as data.
- Interprocedural parts of the Andersen analysis: external relations and attributes of a function, and their instantiation at call sites.
- Field offsets in the Andersen analysis: only the unknown offset is ever stored, as in the code. Symmetry is stated for "related at some state", since it does not hold state by state.
- `std::sort` and `std::equal_range` are modelled by what they do; hash tables are maps that are walked in an arbitrary order.
- CflInfo.FunctionInfo.MayAlias: does not model overflow of an offset plus a size in 64 bits, because no offset but the unknown one is ever stored.
- BrainFCorrect.MachineAgreesWithInterpreter: is stated for texts of fewer than 2^31 characters, because a run of commands is summed in an `int`; the tape without bounds checks is unbounded and holds whatever memory held outside the array, and `malloc` always succeeds.
- BrainF.Compiler.Parse: does not model the names of blocks and registers, the verifier, the JIT or files; the stream's skipping of white space makes no difference, as white space is no command. An abort is an outcome.
- CflInfo.BuildInfoFrom: does not model the external relations and attributes that a function summary adds, because they come from the interprocedural part.
- AliasSetTrackers.AliasSet.MergeSetIn: does not model unknown instructions, volatile marks and reference counts, which have no part in which pointers are together.
- AliasSetTrackers.AliasSet.AliasesPointer: does not model the loop over unknown instructions, as no instructions without an address are added.
- AliasSetTrackers.AliasSet.AddPointer: does not enlarge the size recorded for the first pointer of a must set (AliasSetTracker.cpp:133-135), because a pointer here stands for the size and metadata it is always added with, and the alias oracle answers for those.
- AliasSetTrackers.AliasSetTracker.GetAliasSetForPointer: does not merge again for a known pointer whose size changed, for the same reason.
- AliasSetTrackers.AliasSetTracker.AddPointer: does not model reference counts, the removal of dead forwarding sets, volatile marks, deletion and copying of values, instructions without an address, or a pointer that comes back with another size or metadata.
- CfgReachability.IsPotentiallyReachableFromMany: the queries between instructions that call it are not modelled.
- MassDistribution.ScaledSumFits: is one way for more than two targets, where the exact bound depends on how each weight is rounded; for two targets it is exact (`TwoTargetsFitIff`).
- MassFlow.LoopMass.DistributeMass: requires that the code's assertion on the total holds of the weights; what a truncated total would do is not modelled.
- MassFlow.LoopMass.AddToDist: does not model loops with several headers or functions without an outer loop.
- MassFlow.LoopMass.ComputeMassInLoop: is for loops with one header. Packaged inner loops appear as the node and the weights that stand for them; redistribution over the headers of irreducible loops, floating-point scales and the conversion to integers are not modelled.
- LinearExpressions.GetLinearExpression: does not model sign extension, where the code extends the offset with its sign but not the scale; other instructions count as variables. Decomposing a whole address into indices is not modelled.
- GepAliasing.NoAliasHoldsInMemory: is one way in general; exactly when sums of several indices stay apart is a question about subset sums. It is exact for two variables a constant apart (`GepLimits`) and for one index with steps that cannot leap over both accesses (`GepBehind.StaysBehindIff`).
- GepBehind.StaysBehindIff: is limited to scales smaller than both sizes together, because larger steps can leap over the other access, and then the value that passes the end of memory need not be one that meets it; for a variable known to be negative the offset itself has to leave room.
- GepLimits.FarApartRightIff: is limited to scaled ranges within 2^64, because beyond them the gap wraps as well and sums that wrap can be harmless; the exact condition there is the one on both distances (`TwoValuesApartIff`).
- GepAliasing.AliasGeps: speaks about one pair of addresses with the same base; comparing bases, addresses with the same base pointer and structure fields, recursion, the search for values that change between cycles, and caching are not modelled. A scale or an offset of -2^63 is taken to have the absolute value 2^63, where the code has none.
- SteensSummary.FunctionInfo.constructor: how the stratified sets are built is not modelled; what is below a set is given.
- Barrier.WaitForThreads.ReleaseThreads: requires one releaser that waits for all blockers, as the program calls it; with another number threads stay behind or are woken too early, and a second releaser would overwrite the number.
- Barrier.EveryRunEnds: assumes that threads wake only when woken, because block waits without a loop; errors of the thread library are not modelled.
- The exception demonstration, scripts and C interfaces.
