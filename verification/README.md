# Verified models of Prusti's graph and lattice algorithms

Prusti verifies Rust programs. Before it encodes anything it runs a series of algorithms over the
control-flow graph of a procedure, over the facts of the borrow checker, and over the tokens of
specifications. This project models those algorithms in Dafny and proves what they promise.

- **Forward analysis.** `Places`, `CanonicalSets` and `PlaceSets` model the compressed set of initialised
  places, which splits a place on a move, collapses its parts on an assignment and intersects at joins.
  `AbstractStates`, `PointwiseStates` and `Analyzer` model the solver over any monotone domain of finite
  height, where it finds the least solution; `JoinOverPaths` says what that is along the paths of a body.
  `Mir`, `DefinitelyInitialized`, `InitializedAlongPaths`, `ReachingDefinitions` and `DefinitionsAlongPaths`
  are the two domains and what is reported for a body.
- **Loops.** `Graphs`, `TopologicalSort`, `NaturalLoops`, `Reducibility`, `ProcedureLoops` and `LoopTheorems`:
  back edges, loop bodies, nesting, order, exits.
- **Loans.** `Reborrows`, `ReborrowingDag` and `BorrowGuards` are about reborrowing, `ControlPoints`, `Zombies`,
  `LoanExpiry` and `LoanFates` about which loans expire, and which are lost without a report.
- **Backward interpretation** of bodies without loops: `BackwardInterpreter` and `BackwardMeaning`.
- **Assertions.** `Tokens`, `Preparser` and `TokenParser` model the parser, `PrintedAssertions` and
  `ParsePrinted` its inverse, `ParseTrees` and `GrammarTheorems` the grammar that it accepts, and `IgnoredTokens`
  what quantifiers leave unread. `AssertionIds`, `TypedAssertions` and `AssertionShapes` model the ids that
  connect parsed, emitted and stored assertions.
- **Server.** `VerifierCache` and `CacheSafety` model the cache of verifier threads under concurrent requests.

`Wrappers`, `FiniteSets` and `Sequences` hold shared helpers. Objects that the code updates in place are
classes, its loops are loops with invariants, and each is proved against a function or predicate about
which the theorems are stated. `dafny verify dfyconfig.toml` checks everything.

## Where the code differs from what is said about it

- A self-loop: the backward search of `collect_loop_body` starts at the head itself and walks above it.
  `NaturalLoops.CollectedIffInLoop` gives the exact condition under which the body is still right, and
  `NaturalLoops.SelfLoopOvercollects` an input for which it is not.
- The depth of a loop head is looked up without a check. The lookup panics exactly if some head is in no body
  (`ProcedureLoops.Compute`, with an input in `ProcedureLoops.HeadWithoutBody`), which does not happen while
  loops are connected (`LoopTheorems.HeadsAreCollected`).
- The sort of the blocks panics as not acyclic exactly if the procedure is irreducible: some cycle of real edges
  has no block that dominates it (`Reducibility.ForwardCycleIffIrreducible`, with an input in
  `Reducibility.BranchIntoCycleIrreducible`).
- A loan that turns into a zombie on one edge out of a location is left out of the loans that die on every edge.
  On an edge where no region carries it on it is then lost without a report. `LoanFates.LostSilentlyExactly` says
  when, `LoanFates.SilentOnlyAtBranch` that control branches there, `LoanFates.BranchLosesSilently` gives an input.
- Unreachable blocks: the solver starts with all blocks in the work set, so an unreachable block that leads
  to a reachable one contributes its own effects. The result is exact over the paths from the start block
  where none does (`JoinOverPaths.SolutionIsJoinFromStart`), and `JoinOverPaths.UnreachableLosesPrecision`
  shows that precision is lost for some distributive domain whenever one does.
- Mutual reborrows: if two loans reborrow each other, the direct relation loses pairs, and it has a cycle,
  which makes the sort panic, exactly if no third loan is in the same class (`Reborrows.DirectCyclic`,
  with the smallest such input in `Reborrows.MutualLoansFail`).
- The backward interpreter is documented to return nothing if the graph contains a loop; it does so only if
  the loop can be reached from the start block (`BackwardMeaning.NoResultIffCycle`, with a loop that has a
  result in `BackwardMeaning.LoopApartHasResult`).
- The quantifier parser does not check that it used all tokens. `IgnoredTokens.IgnoresExactly` says for every
  sequence of tokens whether some are ignored, `IgnoredTokens.QuantifierIgnoresRest` how bodies come to leave
  them: after a quantifier or an entailment, and as an `|=` after a group.
- The documented grammar lacks the existential quantifier, the empty assertion in parentheses, the tokens that
  quantifiers ignore, and the rules by which the longest Rust expression wins. `ParseTrees.Fits` has them all;
  `GrammarTheorems.AcceptsExactly` proves that this is what the code accepts.
- A comma after a parenthesised group makes it a Rust expression. A printed quantifier with triggers is parsed
  back exactly if its body does not end with a group (`ParsePrinted.TriggersParseExactly`).
- A verifier cache of size zero holds one thread (`CacheSafety.SizeZeroKeepsOne`).

## Assumptions about the surroundings

Control-flow graphs, predecessors, dominators and the facts of the borrow checker are inputs; predecessors are
those of the successor lists, possibly with repetitions, and dominance is over all edges of a body while loops
are made of real edges, which exclude imaginary and unwinding ones. The theorems on loop nesting assume that
each block of a loop is reached from its head along real edges, which holds in particular if all blocks are
reached along real edges (`LoopTheorems.ReachableMeansConnected`). Places live in a finite tree of types; a
recursive type is represented by its unfolding down to the deepest place that a body mentions. The Rust parser
is a parameter that accepts or rejects token streams, and what it would return is kept as the tokens. A
verifier is a function of configuration and program. An integer counter of the code is a natural number.

## Model

| member | source | states |
|---|---|---|
| Places.PrefixOrder | analysis/src/abstract_domains/place_utils.rs:16-27 | the prefix test is reflexive, antisymmetric and transitive |
| Places.PrefixesComparable | analysis/src/abstract_domains/place_utils.rs:21-27 | two prefixes of the same place are comparable, so the listed prefix of a leaf is unique |
| Places.LeavesBelowExact | analysis/src/abstract_domains/place_utils.rs:29-86 | the leaves below a place are exactly the leaves of which it is a prefix |
| CanonicalSets.CoveredByPrefix | analysis/src/abstract_domains/definitely_initialized.rs:126 | in a set without fully listed siblings a place all of whose leaves are covered has a prefix in the set |
| CanonicalSets.CanonicalUnique | analysis/src/abstract_domains/definitely_initialized.rs:93-116 | two canonical sets with the same leaves are the same set, so comparing sets compares their meaning |
| CanonicalSets.NormaliseCanonical | analysis/src/abstract_domains/definitely_initialized.rs:93-116 | every set of leaves has a canonical set, which stands for exactly these leaves |
| PlaceSets.ExpandStructPlace | analysis/src/abstract_domains/place_utils.rs:33-86 | the parts of a place without one of them: exactly its children except that one |
| PlaceSets.ExpandOneLevel | analysis/src/abstract_domains/place_utils.rs:91-120 | one step towards the guide place, with exactly the siblings that are left |
| PlaceSets.Expand | analysis/src/abstract_domains/place_utils.rs:130-159 | the loop yields the split of a place down to a part, without the part |
| PlaceSets.ExpandedLeaves | analysis/src/abstract_domains/place_utils.rs:122-159 | splitting a place around a part loses exactly the leaves of that part |
| PlaceSets.RemovedExact | analysis/src/abstract_domains/definitely_initialized.rs:143-177 | uninitialising is set difference on leaves, keeps canonical sets canonical, and leaves nothing that overlaps the place |
| PlaceSets.MergeExact | analysis/src/abstract_domains/place_utils.rs:185-189 | replacing all parts of a place by the place changes no leaf and keeps the antichain |
| PlaceSets.MergeComplete | analysis/src/abstract_domains/place_utils.rs:171-196 | after a merge the only place that may now be completely listed lies further up |
| PlaceSets.IntersectionExact | analysis/src/abstract_domains/definitely_initialized.rs:228-262 | the two passes of the join yield intersection on leaves, and a canonical set |
| PlaceSets.ShortestExact | prusti-interface/src/environment/place_set.rs:156-181 | dropping every place that has a prefix in the set keeps the leaves and restores the antichain |
| PlaceSets.PlaceSet.Bottom | analysis/src/abstract_domains/definitely_initialized.rs:190-196 | all locals: a canonical set that covers every leaf |
| PlaceSets.PlaceSet.Initial | analysis/src/abstract_domains/definitely_initialized.rs:207-221 | the arguments: a canonical set that covers exactly their leaves |
| PlaceSets.PlaceSet.Insert | prusti-interface/src/environment/place_set.rs:59-79 | inserting is union on leaves and keeps canonical sets canonical |
| PlaceSets.PlaceSet.Collapse | analysis/src/abstract_domains/place_utils.rs:164-196 | collapsing along a place keeps the leaves and removes every fully listed group of siblings that the insertion created |
| PlaceSets.PlaceSet.CollapseFrom | analysis/src/abstract_domains/place_utils.rs:171-194 | the recursion: after it, only places above the current one can still be completely listed |
| PlaceSets.PlaceSet.Remove | prusti-interface/src/environment/place_set.rs:81-134 | removing is difference on leaves and keeps canonical sets canonical |
| PlaceSets.PlaceSet.Join | prusti-interface/src/environment/place_set.rs:136-155 | merging two sets is intersection on leaves and keeps canonical sets canonical |
| PlaceSets.PlaceSet.Union | prusti-interface/src/environment/place_set.rs:186-190 | union on leaves, which need not be an antichain |
| PlaceSets.PlaceSet.Deduplicate | prusti-interface/src/environment/place_set.rs:157-181 | removing marked positions restores the antichain with the leaves unchanged |
| PlaceSets.PlaceSet.MarkLonger | prusti-interface/src/environment/place_set.rs:160-174 | the nested loops mark exactly the positions of places that have another listed place as prefix |
| AbstractStates.JoinFacts | analysis/src/abstract_state.rs:17-25 | from the laws: join is an upper bound, bottom is least, the order is antisymmetric and of finite height |
| AbstractStates.JoinLeast | analysis/src/abstract_state.rs:42-45 | join is the least upper bound |
| AbstractStates.StatementsKeepJoin | analysis/src/abstract_state.rs:33-38 | running the statements of a block commutes with join |
| AbstractStates.MergeKeepsJoin | analysis/src/analyzer.rs:111-119 | joining states for the same successor commutes with join of the incoming state |
| AbstractStates.EdgesKeepJoin | analysis/src/analyzer.rs:78-142 | the edge states of a block computed from a join are the joins of its edge states |
| AbstractStates.EdgesMonotone | analysis/src/analyzer.rs:78-142 | in a monotone domain a higher incoming state gives higher edge states, wherever the block fails from neither |
| AbstractStates.DistributiveIsMonotone | analysis/src/abstract_state.rs:33-38 | transfer functions that commute with join are monotone, so the second class of domains is part of the first |
| AbstractStates.FromPathsEdge | analysis/src/analyzer.rs:57-62 | an edge state computed from a join over paths is the join over these paths, each longer by the edge |
| PointwiseStates.PointwiseState.LookupMutAfterBlock | analysis/src/pointwise_state.rs:119-125 | an absent map of edge states becomes an empty one, a present one is kept |
| PointwiseStates.PointwiseState.InsertAfterBlock | analysis/src/analyzer.rs:134 | replaces the state of one edge and returns the one replaced |
| Analyzer.JoinPredecessors | analysis/src/analyzer.rs:48-64 | the incoming state is the entry state joined with the known edge states of all predecessors |
| Analyzer.RunBlock | analysis/src/analyzer.rs:78-107 | records exactly the states before the locations of one block, up to the first failure |
| Analyzer.MergeStates | analysis/src/analyzer.rs:111-119 | one state for each target, joined where a target occurs more than once |
| Analyzer.CheckSuccessors | analysis/src/analyzer.rs:121-126 | finds the first successor without a state, if there is one |
| Analyzer.Publish | analysis/src/analyzer.rs:131-142 | the stored edge states become the new ones, and the returned set is exactly the successors whose state is new |
| Analyzer.InterpretBlock | analysis/src/analyzer.rs:48-126 | one round on a block: its recorded states, its edge states or its error |
| Analyzer.RoundRises | analysis/src/analyzer.rs:57-64 | in any monotone domain no stored edge state ever falls: a recomputed one is at or above the previous one |
| Analyzer.RoundKeepsInv | analysis/src/analyzer.rs:45-143 | in any monotone domain each round keeps: every block is in the work set or has been visited, and the stored edge states of a visited block are those of its last incoming state, which is below the present one and equal to it unless the block is in the work set |
| Analyzer.RoundKeepsLeast | analysis/src/analyzer.rs:45-143 | each round keeps every edge state below that of every solution |
| Analyzer.TotalWeightFalls | analysis/src/analyzer.rs:45-143 | the height left over all edges falls whenever a round changes an edge state; the laws of join suffice |
| Analyzer.RoundDone | analysis/src/analyzer.rs:45-143 | in any monotone domain each round lowers the height left or, with it unchanged, the work set |
| Analyzer.ForcedErrorUnsolvable | analysis/src/analyzer.rs:95-126 | an error is raised from a state below every solution, so where errors persist in higher states there is no solution |
| Analyzer.SolutionBounds | analysis/src/analyzer.rs:45-145 | what is found is itself a solution |
| Analyzer.RunFwdAnalysis | analysis/src/analyzer.rs:33-145 | for every monotone domain of finite height: terminates, and either fails with an error that no solution can avoid, or records every location and returns the least solution of the data-flow equations. Where errors persist in higher states it fails exactly if there is no solution; in a distributive domain exactly if some block fails, and then with the error of the first such block |
| JoinOverPaths.SolutionAboveAllPaths | analysis/src/abstract_state.rs:17-25 | in every monotone domain the recorded state is above the states along all paths to the location |
| JoinOverPaths.JoinsBound | analysis/src/analyzer.rs:30-145 | in a distributive domain the joins over all paths exist, each over finitely many paths, and solve the data-flow inequations |
| JoinOverPaths.SolutionIsJoinOverPaths | analysis/src/analyzer.rs:30-145 | in every distributive domain the recorded state is the least upper bound of the states along all paths to the location |
| JoinOverPaths.SolutionIsJoinFromStart | analysis/src/analyzer.rs:30-145 | where no unreachable block leads, it is the least upper bound over the paths from the start block |
| JoinOverPaths.UnreachableLosesPrecision | analysis/src/analyzer.rs:38 | the converse: if an unreachable block leads to a reachable one, some distributive domain gets a state strictly above all paths from the start block |
| JoinOverPaths.PathsFromStartSuffice | analysis/src/analyzer.rs:49-55 | paths that begin at a block with bottom add nothing when that block is reachable |
| DefinitelyInitialized.InitialisedExact | analysis/src/abstract_domains/definitely_initialized.rs:119-140 | the specification of an assignment: union on leaves, canonical again |
| DefinitelyInitialized.UninitialisedExact | analysis/src/abstract_domains/definitely_initialized.rs:143-177 | the specification of a move: difference on leaves, canonical again |
| DefinitelyInitialized.JoinedExact | analysis/src/abstract_domains/definitely_initialized.rs:227-262 | the specification of join: intersection on leaves, canonical again |
| DefinitelyInitialized.StatementKeepsJoin | analysis/src/abstract_domains/definitely_initialized.rs:268-298 | a statement keeps canonical sets and commutes with join |
| DefinitelyInitialized.TerminatorKeepsJoin | analysis/src/abstract_domains/definitely_initialized.rs:300-381 | every edge of a terminator keeps canonical sets and commutes with join |
| DefinitelyInitialized.InitLawful | analysis/src/abstract_domains/definitely_initialized.rs:187-382 | the domain is distributive, hence monotone, and of finite height |
| DefinitelyInitialized.SetPlaceInitialised | analysis/src/abstract_domains/definitely_initialized.rs:119-140 | in place: the new set is the canonical set of the old leaves and those of the place |
| DefinitelyInitialized.SetPlaceUninitialised | analysis/src/abstract_domains/definitely_initialized.rs:143-177 | in place: the new set is the canonical set of the old leaves without those of the place |
| DefinitelyInitialized.JoinStates | analysis/src/abstract_domains/definitely_initialized.rs:228-262 | in place: the new set is the canonical set of the common leaves |
| DefinitelyInitialized.ApplyOperandEffect | analysis/src/abstract_domains/definitely_initialized.rs:180-184 | in place: a moved place is uninitialised, any other operand changes nothing |
| DefinitelyInitialized.ApplyOperandsEffect | analysis/src/abstract_domains/definitely_initialized.rs:284-288 | in place: the operands take effect in their order |
| DefinitelyInitialized.ApplyStatementEffect | analysis/src/abstract_domains/definitely_initialized.rs:268-298 | in place: moves of all operands in order, then the assignment |
| DefinitelyInitialized.ApplyTerminatorEffect | analysis/src/abstract_domains/definitely_initialized.rs:300-381 | the state for each successor, error edges getting the empty set, or the error of inline assembly |
| InitializedAlongPaths.ErrorsAreInlineAsm | analysis/src/abstract_domains/definitely_initialized.rs:369-370 | a block fails exactly if it ends in inline assembly |
| Mir.SuccessorsExactly | analysis/src/abstract_domains/definitely_initialized.rs:300-381 | where control may go from each kind of terminator |
| InitializedAlongPaths.StatementLeaf | analysis/src/abstract_domains/definitely_initialized.rs:268-298 | after an assignment a leaf is initialised exactly if it is part of the target, or was before and is moved by none of the operands |
| InitializedAlongPaths.PathStateAtLeaf | analysis/src/abstract_domains/definitely_initialized.rs:268-381 | running the effects along a path initialises exactly the leaves that the path assigns and does not move or drop afterwards |
| InitializedAlongPaths.ReportedIffInitialised | analysis/src/abstract_domains/definitely_initialized.rs:187-382 | a leaf is reported before a location exactly if it is initialised along every path there |
| InitializedAlongPaths.Analyze | analysis/src/analyzer.rs:33-145 | the whole analysis of a body succeeds exactly if it has no inline assembly, and reports the first one otherwise |
| ReachingDefinitions.DefsLawful | analysis/src/abstract_domains/reaching_definitions.rs:98-212 | this domain too is distributive, hence monotone, and of finite height |
| ReachingDefinitions.ReachingDefsState.Join | analysis/src/abstract_domains/reaching_definitions.rs:135-140 | in place: union for each local |
| ReachingDefinitions.ReachingDefsState.ApplyStatementEffect | analysis/src/abstract_domains/reaching_definitions.rs:147-163 | in place: the definitions of an assigned local are replaced by this one |
| ReachingDefinitions.ReachingDefsState.AfterCall | analysis/src/abstract_domains/reaching_definitions.rs:174-182 | a copy for the return edge, with the destination overwritten |
| ReachingDefinitions.ReachingDefsState.AfterCleanup | analysis/src/abstract_domains/reaching_definitions.rs:186-196 | a copy for the cleanup edge, with the call added to the definitions of the destination |
| ReachingDefinitions.ReachingDefsState.ApplyTerminatorEffect | analysis/src/abstract_domains/reaching_definitions.rs:165-211 | the definitions on each edge; on a cleanup edge the destination may or may not have been assigned |
| DefinitionsAlongPaths.PathStateAtHas | analysis/src/abstract_domains/reaching_definitions.rs:147-211 | running the effects along a path keeps exactly the definitions that the path makes and does not overwrite |
| DefinitionsAlongPaths.ReportedIffHolds | analysis/src/abstract_domains/reaching_definitions.rs:98-212 | a definition is reported before a location exactly if it holds along some path there |
| DefinitionsAlongPaths.Analyze | analysis/src/analyzer.rs:33-145 | the whole analysis of a body succeeds exactly if it has no inline assembly |
| NaturalLoops.DominatorsComparable | prusti-interface/src/environment/loops.rs:237-247 | the dominators of a block form a chain |
| NaturalLoops.HeadDominates | prusti-interface/src/environment/loops.rs:19-40 | every block of a natural loop is dominated by its head |
| NaturalLoops.LoopsNest | prusti-interface/src/environment/loops.rs:249-277 | of two loops that share a block, the one with the dominating head contains the other, whose blocks do not include that head |
| NaturalLoops.SharedBlockNests | prusti-interface/src/environment/loops.rs:249-277 | two loops with different heads that share a block are strictly nested |
| NaturalLoops.EnclosingGrows | prusti-interface/src/environment/loops.rs:266-270 | the head of an inner loop has strictly more enclosing heads than the head of an outer one |
| NaturalLoops.EnclosingChain | prusti-interface/src/environment/loops.rs:272-277 | the heads around a block, by depth, are a chain of nested loops of depths 1, 2, 3 and so on |
| NaturalLoops.HeadComesFirst | prusti-interface/src/environment/loops.rs:291-297 | in a topological order of the forward edges a head comes before every other block of its loop, and each of those has an earlier predecessor in the loop |
| NaturalLoops.LoopIsCollected | prusti-interface/src/environment/loops.rs:19-40 | the backward search misses no block of the natural loop |
| NaturalLoops.CollectedIffInLoop | prusti-interface/src/environment/loops.rs:19-40 | it collects exactly the natural loop if and only if the head has no self-loop, or everything that leads to the head is dominated by it |
| NaturalLoops.SelfLoopCollects | prusti-interface/src/environment/loops.rs:25-28 | with a self-loop it collects every block that can reach the head |
| NaturalLoops.SelfLoopOvercollects | prusti-interface/src/environment/loops.rs:25-38 | a failing input: a start block that leads to a block with a self-loop is collected into its body |
| ProcedureLoops.CollectLoopBody | prusti-interface/src/environment/loops.rs:19-40 | adds to the shared body exactly what walks to the back-edge source without passing the head, whatever was there before |
| ProcedureLoops.AddPredecessors | prusti-interface/src/environment/loops.rs:29-37 | one turn of the search keeps its invariant and makes progress |
| ProcedureLoops.FindBackEdges | prusti-interface/src/environment/loops.rs:239-247 | exactly the real edges whose target dominates their source |
| ProcedureLoops.CollectBodies | prusti-interface/src/environment/loops.rs:249-253 | one body for each head, collected over all its back edges in any order |
| ProcedureLoops.FindEnclosingHeads | prusti-interface/src/environment/loops.rs:255-264 | inverts the bodies: for each block the heads of the bodies that contain it |
| ProcedureLoops.SortByKey | prusti-interface/src/environment/loops.rs:275 | a list without repetition of the given set, in the order of the keys |
| ProcedureLoops.HeadDepths | prusti-interface/src/environment/loops.rs:266-270 | the depth of a head is the number of heads around it; fails exactly if the lookup of some head fails |
| ProcedureLoops.SortEnclosing | prusti-interface/src/environment/loops.rs:272-277 | for each block its heads once each, by depth |
| ProcedureLoops.FindNesting | prusti-interface/src/environment/loops.rs:255-277 | depths and lists of heads describe the nesting of the bodies; fails exactly if some head is in no body |
| ProcedureLoops.BlockOrder | prusti-interface/src/environment/loops.rs:287-288 | the position of each block in the order |
| ProcedureLoops.OrderBodies | prusti-interface/src/environment/loops.rs:291-297 | each body as a list, in the order of the blocks |
| ProcedureLoops.AllExitBlocks | prusti-interface/src/environment/loops.rs:304-343 | the exit blocks of every head, and whether the check of the border passes for all of them |
| ProcedureLoops.VisitOrder | prusti-interface/src/environment/loops.rs:157-183 | the successors other than along back edges, those of smaller loop depth first |
| ProcedureLoops.OrderBasicBlocks | prusti-interface/src/environment/loops.rs:130-207 | fails exactly if some cycle of real edges has no block that dominates all its blocks; otherwise every block once, sources of edges other than back edges before their targets |
| ProcedureLoops.MoveBorder | prusti-interface/src/environment/loops.rs:330-339 | the border loses the current block and gains its forward successors in the loop |
| ProcedureLoops.ExitBlocks | prusti-interface/src/environment/loops.rs:310-340 | in body order, the switch blocks with a successor of smaller depth than the head; the check that each block is in the border in turn passes exactly if each is the head or led to by an earlier block along a forward edge |
| ProcedureLoops.NonconditionalBlocks | prusti-interface/src/environment/loops.rs:348-357 | exactly the body blocks that dominate all back-edge sources of the head |
| ProcedureLoops.Compute | prusti-interface/src/environment/loops.rs:236-372 | the whole structure; fails at a lookup exactly if some head is in no body, and otherwise fails in the sort exactly if the procedure is irreducible |
| ProcedureLoops.HeadWithoutBody | prusti-interface/src/environment/loops.rs:267-270 | a failing input for the lookup: a back edge whose source is not reached along real edges |
| Reducibility.ForwardCycleIffIrreducible | prusti-interface/src/environment/loops.rs:155 | the edges that are no back edges have a cycle if and only if some cycle of real edges has no block that dominates all its blocks |
| Reducibility.EntryDominates | prusti-interface/src/environment/loops.rs:237-247 | a block of a cycle that no block of the cycle leads to without a back edge dominates the cycle |
| Reducibility.BranchIntoCycleIrreducible | prusti-interface/src/environment/loops.rs:155 | a failing input for the sort: a branch into both blocks of a cycle |
| LoopTheorems.ReachableMeansConnected | prusti-interface/src/environment/loops.rs:236-247 | if all blocks are reached along real edges, each block of a loop is reached from its head |
| LoopTheorems.HeadsAreCollected | prusti-interface/src/environment/loops.rs:267-270 | with connected loops each head is found in its own body, so the lookup of its enclosing heads succeeds |
| LoopTheorems.HeadsCollectedExactly | prusti-interface/src/environment/loops.rs:249-270 | all heads are found in their own bodies if and only if each head reaches the source of one of its back edges along real edges |
| LoopTheorems.BodiesAreLoops | prusti-interface/src/environment/loops.rs:249-253 | the computed bodies are exactly the natural loops |
| LoopTheorems.EnclosingListIsChain | prusti-interface/src/environment/loops.rs:272-277 | the computed list of heads of a block is the chain of its loops from outermost to innermost |
| LoopTheorems.LoopDepthCounts | prusti-interface/src/environment/loops.rs:279-284 | the computed depth of a block is the number of loops around it |
| LoopTheorems.OrderedBodyStartsAtHead | prusti-interface/src/environment/loops.rs:291-340 | the ordered body starts at the head, and every other block in it is led to by an earlier block of the list along a forward edge |
| LoopTheorems.OrderedBodiesPassChecks | prusti-interface/src/environment/loops.rs:295-315 | both checks on an ordered body pass: it starts with its head, and each block is in the border when it is reached |
| LoopTheorems.ExitLeavesLoop | prusti-interface/src/environment/loops.rs:299-342 | an exit block has a successor outside of the loop |
| LoopTheorems.ExitBlocksExactly | prusti-interface/src/environment/loops.rs:299-343 | the exit blocks of a loop are exactly its switches with a successor that is in fewer loops than the head, each once, in the order of the blocks |
| LoopTheorems.NonconditionalInEveryIteration | prusti-interface/src/environment/loops.rs:346-357 | a nonconditional block is met on every way from the head to a back-edge source |
| LoopTheorems.NonconditionalExactly | prusti-interface/src/environment/loops.rs:346-357 | the nonconditional blocks are exactly the blocks of the loop that every way from the head to a back-edge source meets |
| TopologicalSort.DepthFirstSort.Visit | prusti-interface/src/environment/loops.rs:142-186 | the recursive visit finishes the node after all its targets, keeps the marks exact, and fails only on a cycle |
| TopologicalSort.DepthFirstSort.Position | prusti-interface/src/environment/loops.rs:189 | the first node that is not permanently marked |
| TopologicalSort.DepthFirstSort.Run | prusti-interface/src/environment/loops.rs:188-204 | visits every node, or reports a cycle |
| TopologicalSort.TopologicalOrder | prusti-interface/src/environment/loops.rs:188-206 | there is a result exactly if there is no cycle, and it is a topological order |
| TopologicalSort.TopologicalAcyclic | prusti-interface/src/environment/loops.rs:155 | a graph with a topological order has no cycle |
| Reborrows.TransitiveClosure | prusti-interface/src/environment/polonius_info.rs:2312-2334 | joining the relation with itself until nothing changes yields exactly what is connected in one or more steps |
| Reborrows.ReductionExact | prusti-interface/src/environment/polonius_info.rs:2336-2344 | for a relation without reflexive pairs, its direct pairs generate exactly the relation if and only if it is transitive |
| Reborrows.ReductionSmallest | prusti-interface/src/environment/polonius_info.rs:2336-2344 | every relation with the same closure contains all direct pairs |
| Reborrows.RemovingLosesPair | prusti-interface/src/environment/polonius_info.rs:2336-2344 | leaving out any direct pair loses a pair of the closure |
| Reborrows.DeriveReborrows | prusti-interface/src/environment/polonius_info.rs:2238-2244 | closes, drops reflexive pairs, and keeps the direct ones |
| Reborrows.DerivedLosesNothing | prusti-interface/src/environment/polonius_info.rs:2238-2244 | the derived direct relation generates the derived relation exactly if no two loans reborrow each other |
| Reborrows.DirectCyclic | prusti-interface/src/environment/polonius_info.rs:2238-2244 | the derived direct relation has a cycle exactly if two loans reborrow each other and no third loan does so with them |
| Reborrows.MutualLoansFail | prusti-interface/src/environment/polonius_info.rs:2238-2244 | a failing input: with two loans that reborrow each other the direct relation loses pairs and has a cycle |
| ReborrowingDag.GetLoanLoops | prusti-interface/src/environment/polonius_info.rs:1366-1400 | exactly the loans made in a loop, each with its innermost loop; fails exactly if two of the loans were made in different loops |
| ReborrowingDag.WithoutPlaceholders | prusti-interface/src/environment/polonius_info.rs:1418-1423 | exactly the loans that are not placeholders |
| ReborrowingDag.KeptTwiceIffBoth | prusti-interface/src/environment/polonius_info.rs:1418-1423 | of the loans that die, as borrows and as zombies, one is listed twice in the graph exactly if some loan that is no placeholder dies as both |
| ReborrowingDag.Targets | prusti-interface/src/environment/polonius_info.rs:1515-1550 | the positions of exactly those loans that a loan directly reborrows |
| ReborrowingDag.LinkNodes | prusti-interface/src/environment/polonius_info.rs:1576-1593 | one node for each sorted loan, linked to exactly the listed loans that it is related to |
| ReborrowingDag.CycleOfLoans | prusti-interface/src/environment/polonius_info.rs:1470-1555 | the graph over positions has a cycle exactly if some listed loan reborrows itself within the list |
| ReborrowingDag.SelectPermutes | prusti-interface/src/environment/polonius_info.rs:1553-1575 | sorting positions yields a permutation of the loans |
| ReborrowingDag.ConstructDag | prusti-interface/src/environment/polonius_info.rs:1403-1595 | each error exactly when it is due; otherwise a permutation of the loans that are not placeholders, each before what it reborrows, with exactly its links |
| ReborrowingDag.ReborrowingIsEarlier | prusti-interface/src/environment/polonius_info.rs:1575-1580 | a link to a reborrowing loan leads to an earlier node |
| ReborrowingDag.ReborrowedIsLater | prusti-interface/src/environment/polonius_info.rs:1575-1583 | a link to a reborrowed loan leads to a later node |
| ReborrowingDag.DagEnds | prusti-common/src/vir/borrows.rs:117-122 | nothing reborrows the loan of the first node and that of the last reborrows nothing |
| ReborrowingDag.CyclicIffMutualPair | prusti-interface/src/environment/polonius_info.rs:1480-1496 | for the derived relation, sorting panics exactly on two listed loans that reborrow each other with no third |
| BorrowGuards.DagBuilder.AddNode | prusti-common/src/vir/borrows.rs:178-187 | adds a node with its index, exactly if its borrow is new |
| BorrowGuards.DagBuilder.constructor | prusti-common/src/vir/borrows.rs:170-177 | an empty graph, whose index is sound |
| BorrowGuards.DagBuilder.CheckIntegrity | prusti-common/src/vir/borrows.rs:115-137 | the checks pass exactly if links lead to nodes and the ends have no outward links; the checks on indices never fail |
| BorrowGuards.Build | prusti-common/src/vir/borrows.rs:164-191 | building succeeds exactly for distinct borrows whose nodes pass the checks |
| BorrowGuards.IntegrityExactly | prusti-common/src/vir/borrows.rs:115-137 | what the checks accept: one node for each borrow, each linked borrow has a node, nothing reborrows the first node and the last reborrows nothing |
| BorrowGuards.DagHasIntegrity | prusti-common/src/vir/borrows.rs:115-137 | nodes from a sorted reborrowing graph pass the checks |
| BorrowGuards.BuildReborrowingDag | prusti-common/src/vir/borrows.rs:176-191 | for a sorted reborrowing graph building fails exactly if a loan is listed twice |
| BorrowGuards.VisitBorrows | prusti-common/src/vir/borrows.rs:148-155 | enqueues and lists each unvisited node once, and marks it |
| BorrowGuards.GuardIndices | prusti-common/src/vir/borrows.rs:139-156 | the search terminates and lists, without repetition, exactly the nodes that the expiring borrow leads to |
| BorrowGuards.ConjoinHolds | prusti-common/src/vir/ast/expr.rs:1840-1852 | a conjunction holds exactly if all its conjuncts do |
| BorrowGuards.GetGuard | prusti-common/src/vir/borrows.rs:140-161 | the guard holds exactly if the guards of all nodes found hold |
| BorrowGuards.GuardIsAncestorConjunction | prusti-common/src/vir/borrows.rs:139-161 | these nodes are the borrow and all loans that transitively reborrow it |
| Zombies.DeriveZombieRequires | prusti-interface/src/environment/polonius_info.rs:2052-2223 | the loop yields the least relation closed under the three rules, and the two relations derived from it |
| Zombies.RequiredIffTraced | prusti-interface/src/environment/polonius_info.rs:2136-2187 | the relation holds exactly where a trace of rule steps leads from a kill |
| Zombies.LiveZombieWasKilled | prusti-interface/src/environment/polonius_info.rs:2136-2187 | every live zombie was killed where a region required it, on a non-empty path to here, and became a zombie there |
| Zombies.BecomingIsLiveNext | prusti-interface/src/environment/polonius_info.rs:2148-2160 | a loan that becomes a zombie is a live zombie at the next point of some edge |
| Zombies.LiveExactly | prusti-interface/src/environment/polonius_info.rs:2144-2187 | a zombie is live exactly where a live region is entered along an edge with the loan: as a zombie already, or killed at the source of the edge |
| ControlPoints.SuccessorsFollow | prusti-interface/src/environment/polonius_info.rs:1846-1868 | the successors of a location are exactly the next statement of its block or, at the end of the block, the starts of the blocks that it leads to; the points of the facts are connected the same way |
| LoanExpiry.GetActiveLoans | prusti-interface/src/environment/polonius_info.rs:942-972 | exactly the loans listed as live in the middle and, for borrows, those made there; fails exactly if the asserted fact does not hold |
| LoanExpiry.GetLoansDyingBetween | prusti-interface/src/environment/polonius_info.rs:1040-1084 | exactly the active loans that are not live at the start of the next location and do not become zombies |
| LoanExpiry.GetLoansDyingAt | prusti-interface/src/environment/polonius_info.rs:1013-1037 | exactly the active loans live in no successor that do not become zombies, and none on return |
| LoanExpiry.GetAllLoansDyingAt | prusti-interface/src/environment/polonius_info.rs:975-984 | the loans that die there as borrows and as zombies; one is listed twice exactly if it dies as both |
| LoanExpiry.GetAllLoansDyingBetween | prusti-interface/src/environment/polonius_info.rs:987-1010 | the loans that die between as borrows and as zombies; one is listed twice exactly if it dies as both |
| LoanExpiry.DyingAtIsIntersection | prusti-interface/src/environment/polonius_info.rs:1013-1084 | with successors, what dies at a location is what dies on all edges out of it |
| LoanExpiry.IssuedLoanDies | prusti-interface/src/environment/polonius_info.rs:965-1084 | a loan made at a location dies there or on an edge exactly if it is not live at the start of the next locations and does not become a zombie |
| LoanFates.GroupByPoint | prusti-interface/src/environment/polonius_info.rs:2200-2216 | the table has each loan of the relation once at its point, and no other |
| LoanFates.DeriveFacts | prusti-interface/src/environment/polonius_info.rs:2231-2253 | the tables of zombies are those of the derived relation |
| LoanFates.LostSilentlyExactly | prusti-interface/src/environment/polonius_info.rs:1040-1084 | an active loan that is not live after an edge is reported, or is a live zombie there, or neither; neither exactly if it is killed in a region that is live on some edge out, while no region that carries it is live at this one |
| LoanFates.SilentOnlyAtBranch | prusti-interface/src/environment/polonius_info.rs:2148-2160 | a loan is lost silently only on an edge with another beside it, on which the loan is a live zombie |
| LoanFates.BranchLosesSilently | prusti-interface/src/environment/polonius_info.rs:1013-1084 | a concrete body, its derived tables, and an edge on which an active loan is lost without a report |
| LoanFates.LossReportedUnlessSilent | prusti-interface/src/environment/polonius_info.rs:942-1084 | on any path a loan that is active first and live neither as borrow nor as zombie last is lost on the first edge after which it is neither, up to there is active as one or the other, and is reported on that edge exactly if it is not lost silently |
| LoanFates.UnreportedStaysActive | prusti-interface/src/environment/polonius_info.rs:942-1084 | a loan that is neither reported nor lost silently on a path is live throughout, as a borrow or as a zombie, and still active at the end |
| LoanFates.LoanEndsReportedOrSilent | prusti-interface/src/environment/polonius_info.rs:942-1084 | on a path to where control ends without a return, an active loan that is neither reported nor lost silently on an edge is reported as dying at the end |
| LoanFates.LoanOutlivesReturn | prusti-interface/src/environment/polonius_info.rs:1013-1037 | on a path to a return such a loan is still active there and is not reported |
| BackwardInterpreter.InterpretBlock | prusti-viper/src/encoder/mir_interpreter.rs:62-74 | terminator first, then the statements from the last to the first |
| BackwardInterpreter.FinalBlocks | prusti-viper/src/encoder/mir_interpreter.rs:47-55 | all blocks without successors are pending at first, and no others that are complete |
| BackwardInterpreter.PushPredecessors | prusti-viper/src/encoder/mir_interpreter.rs:79-86 | pushes exactly the predecessors whose successors are all known, and spends less weight than the block had |
| BackwardInterpreter.RunBackwardInterpretation | prusti-viper/src/encoder/mir_interpreter.rs:38-98 | terminates although blocks may be taken up again; every lookup of a successor succeeds; a result means that no interpretable block was left out, a failure that a block failed whose successors were all interpreted |
| BackwardInterpreter.PredecessorIsLater | prusti-viper/src/encoder/mir_interpreter.rs:79-85 | a predecessor becomes complete only after the block, which bounds repeated work |
| BackwardInterpreter.EvaluatedStep | prusti-viper/src/encoder/mir_interpreter.rs:76-77 | interpreting a known block again does not change its state |
| BackwardMeaning.NoResultIffCycle | prusti-viper/src/encoder/mir_interpreter.rs:36-37 | there is no result exactly if a cycle can be reached from the start block |
| BackwardMeaning.LoopApartHasResult | prusti-viper/src/encoder/mir_interpreter.rs:36-37 | a graph with a loop for which there is a result: a start block that ends, and a loop apart from it |
| BackwardMeaning.OutcomeUnique | prusti-viper/src/encoder/mir_interpreter.rs:57-87 | the outcome does not depend on the order in which blocks are taken up: all runs give the same result, or all fail |
| BackwardMeaning.MeaningPreserved | prusti-viper/src/encoder/mir_interpreter.rs:16-31 | the returned state read in any initial environment is what running forwards from the start block yields |
| BackwardMeaning.StatementsAgree | prusti-viper/src/encoder/mir_interpreter.rs:69-74 | interpreting the statements backwards inverts running them forwards |
| Tokens.ContainsBothAndOr | prusti-specs/src/specifications/preparser.rs:419-447 | the scan with two flags, over nested groups |
| Tokens.AmbiguousExactly | prusti-specs/src/specifications/preparser.rs:415-447 | it rejects exactly the streams in which `&&` and `||` occur without `==>` between them, here or in a parenthesised group |
| Tokens.ContainsOperatorRecursive | prusti-specs/src/specifications/preparser.rs:397-410 | finds an operator at any offset of the stream or of a group in it |
| Tokens.ContainsExactly | prusti-specs/src/specifications/preparser.rs:397-410 | the recursive search finds an operator exactly if it starts in the tokens themselves or in a group at any depth |
| TokenParser.Parser.ConsumeOperator | prusti-specs/src/specifications/preparser.rs:484-493 | takes an operator if it is next and nothing otherwise |
| TokenParser.Parser.ConsumeKeyword | prusti-specs/src/specifications/preparser.rs:495-501 | takes a keyword if it is next and nothing otherwise |
| TokenParser.Parser.ConsumeGroup | prusti-specs/src/specifications/preparser.rs:504-516 | takes a group with the delimiter if it is next |
| TokenParser.Parser.CreateStreamUntil | prusti-specs/src/specifications/preparser.rs:527-535 | takes the tokens before the first occurrence of the operator |
| TokenParser.Parser.ParseRustUntil | prusti-specs/src/specifications/preparser.rs:348-373 | takes the tokens before the next operator on assertions, and each error in the order of the checks |
| TokenParser.Parser.ExtractAssertion | prusti-specs/src/specifications/preparser.rs:92-109 | agrees with the grammar functions on outcome and tokens left |
| TokenParser.Parser.ParsePrusti | prusti-specs/src/specifications/preparser.rs:160-170 | implication, associating to the right |
| TokenParser.Parser.ParseConjunction | prusti-specs/src/specifications/preparser.rs:171-183 | the loop over conjuncts agrees with the recursive grammar |
| TokenParser.Parser.ParseEntailment | prusti-specs/src/specifications/preparser.rs:184-216 | which conjuncts are groups or quantifiers and which are Rust expressions, with an optional entailment |
| TokenParser.Parser.ParseEntailmentArgs | prusti-specs/src/specifications/preparser.rs:190-203 | the optional arguments between bars |
| TokenParser.Parser.ExtractEntailmentRhs | prusti-specs/src/specifications/preparser.rs:217-260 | the loop over conditions agrees with the recursive grammar |
| TokenParser.Parser.ParsePrimary | prusti-specs/src/specifications/preparser.rs:262-280 | groups and quantifiers, with a parser of their own for the tokens inside |
| TokenParser.Parser.ExtractQuantifierRhs | prusti-specs/src/specifications/preparser.rs:281-346 | arguments, body and triggers, with each error in the order of the checks |
| TokenParser.Parser.ParseTriggers | prusti-specs/src/specifications/preparser.rs:302-332 | the optional triggers, which take all tokens that are left |
| PrintedAssertions.PrintNeat | prusti-specs/src/specifications/mod.rs:3-13 | what is printed mixes no `&&` and `||` at any level |
| ParsePrinted.AtomParses | prusti-specs/src/specifications/preparser.rs:348-373 | an atom is taken as a whole, whatever may follow a conjunct |
| ParsePrinted.AtomsExactly | prusti-specs/src/specifications/preparser.rs:184-213 | a token stream parses as an atom of exactly these tokens if and only if it meets the printability condition |
| ParsePrinted.RoundTrip | prusti-specs/src/specifications/preparser.rs:92-373 | parsing a printed assertion returns it and uses all tokens, with any nesting of conjunctions, implications, quantifiers with or without triggers, and entailments with their conditions |
| ParsePrinted.PrintInjective | prusti-specs/src/specifications/mod.rs:3-13 | the documented grammar is unambiguous on printed assertions |
| ParsePrinted.EntailmentParses | prusti-specs/src/specifications/preparser.rs:184-260 | a printed entailment is taken as a whole, whatever follows it: closure, optional arguments, and all conditions in order |
| ParsePrinted.TriggersParseExactly | prusti-specs/src/specifications/preparser.rs:281-391 | a printed quantifier with triggers parses as itself if and only if the body does not end with a parenthesised group, for every printable body |
| ParseTrees.ExtractedTree | prusti-specs/src/specifications/preparser.rs:92-346 | whatever tokens are parsed: the assertion has a parse tree of the grammar that is spelled by exactly these tokens, so none is dropped, added or moved |
| ParseTrees.ParsedTree | prusti-specs/src/specifications/preparser.rs:157-169 | what is parsed from the front has a parse tree for exactly the tokens in front of those that are left |
| GrammarTheorems.TreeParses | prusti-specs/src/specifications/preparser.rs:157-391 | conversely each tree of the grammar is taken, with its assertion, from in front of any tokens that do not continue it |
| GrammarTheorems.AcceptsExactly | prusti-specs/src/specifications/preparser.rs:92-391 | the parser accepts exactly the token streams of the trees of the grammar, unambiguous at each level, and returns the assertion of the tree |
| IgnoredTokens.IgnoresExactly | prusti-specs/src/specifications/preparser.rs:281-346 | a quantifier that parses has used all its tokens if and only if the walk over the conjuncts of its body, which does not parse what is inside of them, ends with none left or with a comma: what is left otherwise comes after a quantifier or an entailment, or is an `|=` after a group |
| IgnoredTokens.ExtractsExactly | prusti-specs/src/specifications/preparser.rs:92-109 | tokens are an assertion exactly if they do not mix the two operators, parse, and leave nothing after the last conjunct, and each other case has its own error |
| IgnoredTokens.QuantifierIgnoresRest | prusti-specs/src/specifications/preparser.rs:281-346 | for every body that ends with a quantifier or an entailment, any tokens after it that start with no operator and no comma, and for one that ends with a group any tokens that start with `|=`, are an error at the end of an assertion but ignored in a quantifier |
| AssertionIds.AssignIds | prusti-specs/src/specifications/untyped.rs:247-322 | in place on the generator: the ids go to the parts in the order of the visit |
| AssertionIds.AssignTermsIds | prusti-specs/src/specifications/untyped.rs:158-164 | the terms of one trigger, in order |
| AssertionIds.AssignTriggersIds | prusti-specs/src/specifications/untyped.rs:220-234 | the triggers of a quantifier, in order |
| AssertionIds.AssignAllIds | prusti-specs/src/specifications/untyped.rs:264-268 | conjuncts or conditions, in order |
| AssertionIds.IdsAreConsecutive | prusti-specs/src/specifications/untyped.rs:158-322 | the ids of an assertion are consecutive and each is used once |
| TypedAssertions.EncodeTypeCheck | prusti-specs/src/specifications/untyped.rs:371-475 | extends the tokens by the closures of the assertion |
| TypedAssertions.EncodeAll | prusti-specs/src/specifications/untyped.rs:377-381 | extends the tokens by the closures of several assertions, in order |
| TypedAssertions.EmitsEntries | prusti-specs/src/specifications/untyped.rs:371-475 | the closures emitted at any depth are exactly one for each id, with its parameters and expression |
| TypedAssertions.EmittedAreProvided | prusti-specs/src/specifications/untyped.rs:371-475 | their keys are exactly the assigned ids, and each finds its own closure |
| TypedAssertions.LookedUp | prusti-interface/src/specs/typed.rs:146-290 | rebuilding succeeds exactly if each id finds a closure, with the stored number of parameters where variables are bound |
| TypedAssertions.Rebuilt | prusti-specs/src/specifications/json.rs:54-150 | from the stored structure, with body and triggers swapped, and closures that provide the ids, the same tree comes back |
| AssertionShapes.RepresentationsLineUp | prusti-interface/src/specs/typed.rs:115-290 | ids, closures and stored structure of any assertion yield the parsed tree again, each expression being its own closure |
| VerifierCache.PrustiServer.TakeOut | prusti-server/src/lib.rs:63-69 | takes the first thread of the configuration out of the cache, if there is one |
| VerifierCache.Position | prusti-server/src/lib.rs:64-66 | the first thread with the configuration, if there is one |
| VerifierCache.PrustiServer.PutBack | prusti-server/src/lib.rs:84-89 | evicts the last thread if the cache is full and puts the thread in front |
| CacheSafety.AlwaysSafe | prusti-server/src/lib.rs:60-101 | in every state of every interleaving: no thread is cached twice, or cached and in use, or used by two requests; configurations match; one message at most is pending; the cache is bounded; answers are to the own request; no thread is lost |
| CacheSafety.NextKeeps | prusti-server/src/lib.rs:60-101 | each atomic step of a request or a thread keeps the invariant |
| CacheSafety.NeverStuck | prusti-server/src/verifier_thread.rs:55-82 | the next step of every unfinished request is possible, and its thread has not stopped |
| CacheSafety.OutcomeTells | prusti-server/src/lib.rs:77-101 | a request that is done has the result for its own program and configuration exactly if a thread has answered it, and an error exactly if a thread has panicked over it |
| CacheSafety.TakesMostRecent | prusti-server/src/lib.rs:64-68 | the thread taken is the most recently returned one of the configuration |
| CacheSafety.EvictsLeastRecent | prusti-server/src/lib.rs:84-89 | a full cache loses the least recently returned thread and nothing else |
| CacheSafety.SizeZeroKeepsOne | prusti-server/src/lib.rs:85-89 | with a cache size of zero the cache still holds one thread |

## Left out

- Enum downcasts, array indices and unions in places: the code treats the siblings of a downcast as no parts at all, and leaves then are not well defined.
- Widening, iteration counters and the unimplemented domains of the analysis: both modelled domains never widen. A join need not be a least upper bound for the code to run; it is one in the modelled domains, and the solver is proved for such joins.
- Serialisation, hashing, debug output and the debug assertions that repeat an invariant; the invariant is proved instead.
- The used-paths and read/write leaf queries of loops, and whether an edge leaves a loop: heuristics without a stated precondition.
- The order of basic blocks is proved topological; that a loop body is contiguous in it is neither promised by the depth-first search nor claimed.
- Loop magic wands and the representative loan of a reborrowing graph: the table of magic wands is always empty in the code.
- Kind, zombity and incoming zombies of a reborrowing node, and statements and places of the encoder's nodes.
- Loading reborrows from borrow regions and restrictions, and filtering incompatible loans: one join and one filter before the closure.
- LoanExpiry.GetActiveLoans: the order of the returned list is not modelled, because the code sorts it only to compare contents.
- The point-to-point variant of backward interpretation: it is documented not to wait for all successors.
- Pledges, and error positions of the parser.
- ParsePrinted.RoundTrip: an atom with `||` is printed in parentheses, so one is not printed at the end of a body in front of triggers, nor as the closure of an entailment, which cannot be parenthesised; bare, both would depend on what surrounds them.
- AssertionIds.AssignIds: the counter does not wrap around, and the name of a closure is the pair of specification and expression id instead of the text joining them.
- The channel and thread primitives of the server, its HTTP service, the verifier and everything behind it.
- Encoding to Viper, code generation, configuration and launchers: input and output around libraries that are not modelled.
