# Verified algorithms of the TVM LLVM tree

Machine-checked models of the self-contained algorithms in this repository, with proofs of what
each of them is for. `dafny verify dfyconfig.toml` checks the whole project.

| files | algorithm |
|---|---|
| `BrainFSource`, `BrainFIr`, `BrainFLayout`, `BrainFText`, `BrainFSimulation`, `BrainFCompiler`, `BrainFCorrectness`, `BrainFDominance` | the one-pass BrainF compiler: source language, a machine that runs the text itself, the fragment of LLVM IR it emits, the emitting class, simulation, tape safety and dominance |
| `AliasSets`, `AliasSeparation`, `AliasInsertions`, `AliasAccess`, `AliasSetTracker` | the alias set tracker: reference counts, forwarding, must and may sets, recorded accesses, saturation, and why overlapping pointers share a set |
| `BlockMass`, `BlockWeights`, `BlockDistribution`, `BlockFrequency`, `IrreducibleHeaders`, `MassPropagation` | the block frequency core: scaling, combining and normalizing weights, distributing mass, headers of irreducible components |
| `Cfg`, `CfgBackedges`, `CfgReachability` | the depth-first search for back edges and the bounded reachability query |
| `AliasAggregation`, `CallDependence` | combining the answers of many alias analyses |
| `ThreadBarrier` | the condition-variable barrier of the parallel JIT example |
| `CaseFold` | the generator of the simple case folding function |
| `Sha256Blocks`, `Sha256Streaming`, `Sha256Example` | streaming SHA-256, and the published example |
| `CheckPrefixes` | choosing FileCheck prefixes for blocks of tool output |
| `ItaniumNames` | parsing Itanium-mangled nested names |
| `ExceptionTables` | LEB128 numbers, call-site tables, action chains and the two phases of exception handling |
| `Wrappers` | options and picking set elements |

Classes and methods follow the classes and loops of the sources; each method is proved against a
function or predicate over values, and the lemmas are about those.

Assumptions a reader should know:

- BrainF runs on an abstract machine: registers hold unbounded integers, memory is a map, `malloc`
  returns a base address, and C's `int` accumulators are integers. A machine is strict (accesses
  outside the tape fault) or idealised (unbounded tape). `Balanced`, `ParseSeq` and the machine
  of `BrainFText` are independent readings of the source text. With bounds checks on, a check
  follows each merged run of moves, as in the code, not each character.
- The alias set tracker takes its alias analysis as a function and each pointer's address as a
  ghost function. `disturbed` turns on only when the invariant insertions rely on is lost: the
  first pointer of a must-alias set no longer covers another one (after a growth, a deletion, or a
  merge in which it covers no byte), or a copy does not fit the set of its original.
- Numbers for blocks, nodes, calls and prefixes stand for the objects of the sources; where the
  sources iterate a hash table or a pointer-keyed map the model picks elements in any order.
- Dominator trees and loop information are inputs with stated guarantees (`ValidDominators`,
  `ValidLoops`).
- An execution, for the alias analysis results, is the set of accesses of each call, each through
  an argument, to memory the program cannot access, or elsewhere (`World`).

Where the code does not do what one may expect of it:

- A must-alias set is asked about through its first pointer only. When a pointer grows or is
  deleted, the first pointer may no longer cover the others; overlapping pointers are still in one
  set then (unless the pointer that grew covered no byte before), but a later insertion can put an
  overlapping pointer elsewhere (`GrowthLosesSeparation`, `DeletionLosesSeparation`). Further insertions keep overlapping pointers
  together if and only if every first pointer covers its set (`InsertionsNeedCover`, and
  `RunsNeedCover` for whole runs); `GrowthSafe`, `DeletionSafe`, `MergeSafe` and `CopySafe` say when
  an operation leaves a tracker of which this is true. Deleting the last pointer of a saturated
  tracker leaves a dangling catch-all set (`DeleteValue`).
- With an empty tape a bounds-checked BrainF program faults exactly if it starts with something
  other than a move (`FaultsOnEmptyTape`).
- After a 64-bit overflow a normalized total can exceed 32 bits (`OverflowBreaksTotal`), although
  an assertion says otherwise; for two targets `TwoTargetsOverflow` says exactly when.
- Registering a further, sound alias analysis can bring a Ref bit back (`AnotherAnalysisMayAddRef`);
  `AnotherAnalysisRefines` says exactly when.
- Signed LEB128 numbers below -2^27 and numbers from 2^31 on are not read back (`ReadableU`,
  `ReadableS`), because the shifts are done in `int`.
- The barrier works for every order of arrival only if the number asked for is the number of
  workers (`RightCountOnly`), and a spurious wakeup breaks it (`SpuriousWakeupBreaksBarrier`).
- Streaming SHA-256 counts the length of a message right exactly if each piece, with what the low
  digit of the count holds, fits 32 bits (`HashPieces`, `CountsRight`).

## Model

| member | source | states |
|---|---|---|
| BrainFSource.ParseMeetsDepth | llvm/examples/BrainF/BrainF.cpp:192-476 | a text parses to its end exactly when its brackets balance |
| BrainFSource.ClosedMeetsDepth | llvm/examples/BrainF/BrainF.cpp:426-430 | an unbalanced text is refused for a closing bracket exactly if some prefix closes more than it opens, and otherwise for an opening one |
| BrainFSource.MergeExec | llvm/examples/BrainF/BrainF.cpp:336-380 | merging runs does not change what an unchecked program does, for any state and fuel |
| BrainFSource.CheckedOnTape | llvm/examples/BrainF/BrainF.cpp:246-275 | with bounds checks a run that starts where memory can be accessed never faults, and its head stays on the tape if it starts there |
| BrainFCompiler.BrainF.ReadAhead | llvm/examples/BrainF/BrainF.cpp:320-423 | tokenizing with one symbol of lookahead: current symbol, next symbol and unread text parse to what the old lookahead and text parsed to, so no token is lost or doubled |
| BrainFCompiler.BrainF.EmitRead | llvm/examples/BrainF/BrainF.cpp:209-224 | the emitted instructions are the code of a read at the insertion point, and nothing laid out before changes |
| BrainFCompiler.BrainF.EmitWrite | llvm/examples/BrainF/BrainF.cpp:226-244 | the same for a write |
| BrainFCompiler.BrainF.EmitMove | llvm/examples/BrainF/BrainF.cpp:246-276 | the same for a move: with checks, the comparison with both ends of the tape and the branch to the error block |
| BrainFCompiler.BrainF.EmitChange | llvm/examples/BrainF/BrainF.cpp:278-290 | the same for a change |
| BrainFCompiler.BrainF.CompileLoop | llvm/examples/BrainF/BrainF.cpp:292-312 | a loop is compiled exactly if its bracket is closed, to the code of the merged parse of its body |
| BrainFCompiler.BrainF.CloseBody | llvm/examples/BrainF/BrainF.cpp:426-463 | branch back, completed head phi, test and exit phi make the code of the loop statement around the body |
| BrainFCompiler.BrainF.BranchToEnd | llvm/examples/BrainF/BrainF.cpp:465-475 | the end of the text branches to the end block, and then the function is well formed |
| BrainFCompiler.BrainF.Commands | llvm/examples/BrainF/BrainF.cpp:192-423 | the command loop emits the code of exactly the statements up to the end of the text or an unmatched bracket |
| BrainFCompiler.BrainF.ReadLoop | llvm/examples/BrainF/BrainF.cpp:192-476 | success or the kind of bracket error, and on success code that is well formed and lays out the merged parse |
| BrainFCompiler.BrainF.Parse | llvm/examples/BrainF/BrainF.cpp:53-63 | compilation succeeds exactly when brackets balance, and produces a compiled function for the merged text |
| BrainFCompiler.BranchKeepsWf | llvm/examples/BrainF/BrainF.cpp:246-275 | ending a block with a branch keeps one terminator a block and one phi entry a predecessor |
| BrainFCompiler.OpenLoopWf | llvm/examples/BrainF/BrainF.cpp:292-312 | so does opening a loop |
| BrainFCompiler.CloseLoopWf | llvm/examples/BrainF/BrainF.cpp:426-463 | so does closing a loop |
| BrainFSimulation.CodeSim | llvm/examples/BrainF/BrainF.cpp:202-318 | laid-out code simulates the statements it was laid out for, step counts included |
| BrainFSimulation.LoopSim | llvm/examples/BrainF/BrainF.cpp:426-463 | a compiled loop simulates the loop statement, the head flowing through its phis |
| BrainFCorrectness.RunFollowsSource | llvm/examples/BrainF/BrainF.cpp:65-190 | every source run, finished or not, is followed by the compiled function |
| BrainFCorrectness.CompiledRunsLikeSource | llvm/examples/BrainF/BrainF.cpp:53-476 | compiler correctness: same stops, same output and memory, same final head in one register, same non-termination, and never stuck |
| BrainFText.TextMeetsStmts | llvm/examples/BrainF/BrainF.cpp:336-423 | a machine that runs the text itself, brackets found by counting, + and - modulo 256, and a checked run of moves as one, stops in a state if and only if the merged statements of a balanced text do |
| BrainFText.UncheckedTextMeetsStmts | llvm/examples/BrainF/BrainF.cpp:336-423 | without bounds checks the same holds of the statements as written, no run merged |
| BrainFCorrectness.CompiledRunsLikeText | llvm/examples/BrainF/BrainF.cpp:53-476 | compiler correctness down to the text: the function of a balanced text halts or faults in a state if and only if the machine that runs the text stops so, ends with its head, is never stuck, and runs forever with it |
| BrainFCorrectness.UncheckedRunsCharByChar | llvm/examples/BrainF/BrainF.cpp:336-380 | without bounds checks the function behaves as the text run one character at a time, and as its statements with no run merged |
| BrainFCorrectness.CheckedNeverFaults | llvm/examples/BrainF/BrainF.cpp:118-127 | tape safety: with bounds checks and a nonempty tape no load or store leaves it |
| BrainFCorrectness.FaultsOnEmptyTape | llvm/examples/BrainF/BrainF.cpp:118-275 | a bounds-checked program faults exactly if memory is strict, the tape is empty and it starts with something other than a move |
| BrainFCompiler.AppendDefines | llvm/examples/BrainF/BrainF.cpp:209-290 | emitting straight-line code leaves every register assigned in at most one place |
| BrainFCompiler.OpenLoopDefinesPhi | llvm/examples/BrainF/BrainF.cpp:292-312 | so does opening a loop, which adds the head phi |
| BrainFCompiler.CloseLoopDefinesThree | llvm/examples/BrainF/BrainF.cpp:426-463 | so does closing a loop, which adds the test and the exit phi |
| BrainFDominance.NothingUndefined | llvm/examples/BrainF/BrainF.cpp:192-476 | along every path through the graph, whichever way branches go, nothing undefined is read and every phi has an entry |
| BrainFDominance.UsesAreDominated | llvm/examples/BrainF/BrainF.cpp:192-476 | every register read after a path from the entry has exactly one definition in the function, and the path has passed it |
| AliasSets.RootIsTarget | llvm/include/llvm/Analysis/AliasSetTracker.h:276-286 | following forwarding pointers ends, at a set that does not forward and is older than the start or the catch-all set |
| AliasSets.RefsAfterSet | llvm/include/llvm/Analysis/AliasSetTracker.h:183-189 | redirecting one set moves exactly one reference |
| AliasSets.MergeConsistent | llvm/lib/Analysis/AliasSetTracker.cpp:50-110 | merging keeps every list, forwarding pointer and reference count exact |
| AliasSets.MergeTotal | llvm/lib/Analysis/AliasSetTracker.cpp:50-110 | and keeps the total of may-alias set sizes exact |
| AliasSets.AddConsistent | llvm/lib/Analysis/AliasSetTracker.cpp:129-165 | adding a pointer keeps them exact |
| AliasSets.DeleteConsistent | llvm/lib/Analysis/AliasSetTracker.cpp:513-535 | unlinking a pointer leaves exactly its reference to be dropped |
| AliasSets.NotEmpty | llvm/lib/Analysis/AliasSetTracker.cpp:112-127 | a live set that does not forward has a pointer |
| AliasSeparation.UntouchedIsApart | llvm/lib/Analysis/AliasSetTracker.cpp:186-221 | the test through one representative of a must-alias set misses no overlapping pointer |
| AliasSeparation.MergeSeparated | llvm/lib/Analysis/AliasSetTracker.cpp:50-110 | merging keeps overlapping pointers together; first pointers go on covering their sets unless exactly one is kept that is smaller than the first pointer merged in, and then covers no byte |
| AliasSeparation.AddSeparated | llvm/lib/Analysis/AliasSetTracker.cpp:129-165 | so does adding a pointer to the only set it may overlap |
| AliasSeparation.DeleteSeparated | llvm/lib/Analysis/AliasSetTracker.cpp:513-535 | deleting keeps overlapping pointers together; first pointers go on covering their sets exactly if the next one of the must-alias set covers every other |
| AliasSeparation.AddKnownSeparated | llvm/lib/Analysis/AliasSetTracker.cpp:541-558 | adding a copy without asking the analysis keeps overlapping pointers together exactly if it is apart from all other sets, and first pointers cover their sets exactly if the one of this set covers it |
| AliasSeparation.GrowthCovers | llvm/lib/Analysis/AliasSetTracker.cpp:334-335 | recording a larger size leaves first pointers covering their sets exactly if the set is may-alias, the pointer is the first one, or the first one still covers it |
| AliasSeparation.GrowthOverlap | llvm/lib/Analysis/AliasSetTracker.cpp:327-338 | right after growing a pointer that had bytes and merging what it touches, whatever overlaps is in one set |
| AliasSeparation.GrowthSeparated | llvm/lib/Analysis/AliasSetTracker.cpp:327-338 | growing a pointer that had bytes keeps overlapping pointers together; first pointers go on covering their sets exactly if that of the set it ends up in covers it |
| AliasSeparation.GatheredJoins | llvm/lib/Analysis/AliasSetTracker.cpp:265-281 | after merging for a pointer, known pointers are regrouped exactly by joining the groups it touches |
| AliasInsertions.GatherOk | llvm/lib/Analysis/AliasSetTracker.cpp:265-281 | the search, as a function of the tracker, merges exactly the touched live sets and keeps the invariant |
| AliasInsertions.InsertOk | llvm/lib/Analysis/AliasSetTracker.cpp:340-349 | an insertion keeps the invariant and tracks one more pointer |
| AliasInsertions.InsertShares | llvm/lib/Analysis/AliasSetTracker.cpp:340-349 | for a sound analysis an insertion keeps overlapping pointers together, if first pointers cover their sets |
| AliasInsertions.InsertionLoses | llvm/lib/Analysis/AliasSetTracker.cpp:186-221 | if a first pointer misses a byte of another one, a new pointer to that byte overlaps it from another set, even with the most precise analysis |
| AliasInsertions.InsertionsNeedCover | llvm/lib/Analysis/AliasSetTracker.cpp:186-221 | every further insertion keeps overlapping pointers together if and only if every first pointer covers its must-alias set |
| AliasInsertions.RunsNeedCover | llvm/lib/Analysis/AliasSetTracker.cpp:186-221 | the same for whole runs of insertions |
| AliasInsertions.DeletionSafe | llvm/lib/Analysis/AliasSetTracker.cpp:513-535 | insertions after a deletion keep overlapping pointers together exactly if the next first pointer covers every other |
| AliasInsertions.GrowthSafe | llvm/lib/Analysis/AliasSetTracker.cpp:327-338 | after a growth overlapping pointers are together and insertions keep them so exactly if the first pointer of the set it ends up in covers it |
| AliasInsertions.MergeSafe | llvm/lib/Analysis/AliasSetTracker.cpp:50-110 | insertions after a merge keep overlapping pointers together unless exactly it keeps a first pointer smaller than the one merged in |
| AliasInsertions.CopySafe | llvm/lib/Analysis/AliasSetTracker.cpp:541-558 | after a copy overlapping pointers are together and insertions keep them so exactly if it is apart from all other sets and covered by the first pointer of its own |
| AliasSetTrackers.AliasSetTracker.DropRef | llvm/include/llvm/Analysis/AliasSetTracker.h:183-189 | dropping the last reference removes a set and the reference it held, all the way down |
| AliasSetTrackers.AliasSetTracker.GetForwardedTarget | llvm/include/llvm/Analysis/AliasSetTracker.h:276-286 | path compression returns the target and changes no group |
| AliasSetTrackers.AliasSetTracker.MergeSetIn | llvm/lib/Analysis/AliasSetTracker.cpp:50-110 | the state after the merge is the specified one, must-alias kept only if the representatives must alias, and the surviving set has every access of both |
| AliasSetTrackers.AliasSetTracker.AliasesPointer | llvm/lib/Analysis/AliasSetTracker.cpp:186-221 | the answer of the test, without changing the tracker |
| AliasSetTrackers.AliasSetTracker.MergeAliasSetsForPointer | llvm/lib/Analysis/AliasSetTracker.cpp:265-281 | the result is that of the search as a function: all touched live sets end up merged into the first one; nothing is disturbed unless some access is empty |
| AliasSetTrackers.AliasSetTracker.Grow | llvm/lib/Analysis/AliasSetTracker.cpp:316-338 | a larger access is recorded and the sets it touches are joined; this disturbs the tracker only if the first pointer of its set no longer covers it |
| AliasSetTrackers.AliasSetTracker.AddPointerTo | llvm/lib/Analysis/AliasSetTracker.cpp:129-165 | the state after adding a pointer is the specified one, with the must to may switch and the sizes |
| AliasSetTrackers.AliasSetTracker.GetAliasSetForPointer | llvm/lib/Analysis/AliasSetTracker.cpp:306-350 | returns the live set of the pointer and keeps the tracker valid; without empty accesses it is disturbed exactly when the first pointer of the set no longer covers a known pointer that grew; a live set has an access bit exactly if one of its pointers was in a set that had it |
| AliasSetTrackers.AliasSetTracker.MergeAllAliasSets | llvm/lib/Analysis/AliasSetTracker.cpp:560-595 | saturation: every pointer resolves to the new catch-all set and every other set forwards straight to it |
| AliasSetTrackers.AliasSetTracker.AddPointer | llvm/lib/Analysis/AliasSetTracker.cpp:597-610 | an access is tracked; below the threshold, which bounds the pointers in may-alias sets, the groups it touches are joined, above it there is one group; no recorded access is forgotten, and an access bit of a set comes from this access or from a pointer whose set had it |
| AliasSetTrackers.AliasSetTracker.DeleteValue | llvm/lib/Analysis/AliasSetTracker.cpp:513-535 | the other pointers keep their groups and recorded accesses; it is disturbed exactly if the next first pointer does not cover another one; the tracker stays valid exactly unless it is saturated and becomes empty |
| AliasSetTrackers.AliasSetTracker.CopyValue | llvm/lib/Analysis/AliasSetTracker.cpp:541-558 | a copy joins the set of the original, with its recorded accesses, and nothing else moves; it is disturbed exactly if the copy does not fit that set, which an equal pointer does |
| AliasSetTrackers.AliasSetTracker.OverlappingShareASet | llvm/lib/Analysis/AliasSetTracker.cpp:306-350 | separation: for a sound analysis and an undisturbed history, or once saturated, overlapping pointers are in one alias set |
| AliasSetTrackers.AliasSetTracker.SaturatedSeparated | llvm/lib/Analysis/AliasSetTracker.cpp:560-595 | saturation restores separation, whatever happened before |
| AliasAccesses.JoinedThenMerged | llvm/lib/Analysis/AliasSetTracker.cpp:50-60 | merging two sets leaves each live set with exactly the access bits that the sets of its pointers had before |
| AliasAccesses.InsertJoins | llvm/lib/Analysis/AliasSetTracker.cpp:340-349 | so does a whole insertion, and the new pointer brings none |
| AliasAccesses.MergeGathers | llvm/lib/Analysis/AliasSetTracker.cpp:50-110 | two sets merged: every access of both, their pointers in order, and must-alias exactly if both were and the first pointers must alias |
| AliasAccesses.AddGathers | llvm/lib/Analysis/AliasSetTracker.cpp:129-165 | a pointer added: no access, last in the list, and still must-alias exactly if it is known to belong there, is the first one, or must alias the first one |
| AliasAccesses.MayPointersCounted | llvm/include/llvm/Analysis/AliasSetTracker.h:430-431 | the size that is compared with the threshold is never less than the number of pointers in may-alias sets |
| AliasInsertions.GrowthLosesSeparation | llvm/lib/Analysis/AliasSetTracker.cpp:327-338 | growing a tracked pointer can lose separation: three pointers that show it, up to the two sets |
| AliasInsertions.DeletionLosesSeparation | llvm/lib/Analysis/AliasSetTracker.cpp:513-535 | so can deleting one: four pointers that show it |
| BlockMasses.ScaleIsExact | llvm/lib/Analysis/BlockFrequencyInfoImpl.cpp:116-122 | scaling in 32-bit digits with carries is exact, never exceeds its input and is the identity at probability one |
| BlockMasses.ProbabilityNear | llvm/lib/Analysis/BlockFrequencyInfoImpl.cpp:116 | the numerator of a probability is off from w/d by at most half a unit |
| BlockMasses.ShareIsFair | llvm/lib/Analysis/BlockFrequencyInfoImpl.cpp:116 | a share of mass M for weight w of W left differs from M * w / W by at most M / 2^32 up, and as much and one unit down |
| BlockMasses.DitheringDistributer.TakeMass | llvm/lib/Analysis/BlockFrequencyInfoImpl.cpp:114-122 | a weight takes its share, which is proportional up to rounding, and the last one takes all that is left |
| BlockWeights.CombineNew | llvm/lib/Analysis/BlockFrequencyInfoImpl.cpp:141-155 | the first edge to a target becomes its weight |
| BlockWeights.CombineInto | llvm/lib/Analysis/BlockFrequencyInfoImpl.cpp:141-155 | a further edge is added, saturating, to its target's weight and changes no other |
| BlockWeights.CompactAdjacent | llvm/lib/Analysis/BlockFrequencyInfoImpl.cpp:163-175 | in-place compaction of a sorted list leaves one fitting weight per target |
| BlockWeights.CombineWeightsBySorting | llvm/lib/Analysis/BlockFrequencyInfoImpl.cpp:157-176 | one weight per target, with the sum of its edges and their type |
| BlockWeights.CombineWeightsByHashing | llvm/lib/Analysis/BlockFrequencyInfoImpl.cpp:178-195 | the same through a hash table in any iteration order, including the early return |
| BlockWeights.CombineWeights | llvm/lib/Analysis/BlockFrequencyInfoImpl.cpp:197-205 | the same whichever combiner the size selects |
| BlockWeights.CombinesUnique | llvm/lib/Analysis/BlockFrequencyInfoImpl.cpp:157-195 | both combiners give the same weights up to order |
| BlockWeights.CombinesKeepsSum | llvm/lib/Analysis/BlockFrequencyInfoImpl.cpp:242-252 | combining without saturation keeps the total |
| BlockDistributions.ShiftRounds | llvm/lib/Analysis/BlockFrequencyInfoImpl.cpp:207-213 | shifting and adding the last bit shifted out rounds to the nearest, halves up |
| BlockDistributions.ScaledFits | llvm/lib/Analysis/BlockFrequencyInfoImpl.cpp:254-268 | scaled weights sum to at most 32 bits whenever there is room for one unit per weight |
| BlockDistributions.Distribution.Add | llvm/lib/Analysis/BlockFrequencyInfoImpl.cpp:124-139 | the wrapping total and the overflow flag remember the true sum |
| BlockDistributions.Distribution.Normalize | llvm/lib/Analysis/BlockFrequencyInfoImpl.cpp:215-269 | weights at least 1, one per target, in the order of the combined ones, scaled by the stated shift, and summing to a 32-bit total unless an overflow left no room |
| BlockDistributions.ScaledKeepsOrder | llvm/lib/Analysis/BlockFrequencyInfoImpl.cpp:254-262 | scaling never turns the order of two weights around |
| BlockDistributions.OverflowBreaksTotal | llvm/lib/Analysis/BlockFrequencyInfoImpl.cpp:226-268 | after an overflow two maximal weights scale to a total of 2^32, one more than fits |
| BlockDistributions.TwoTargetsOverflow | llvm/lib/Analysis/BlockFrequencyInfoImpl.cpp:226-268 | with two targets the total fails to fit exactly if both weights are at least 2^64 - 2^32 |
| BlockFrequencies.SharesConserve | llvm/lib/Analysis/BlockFrequencyInfoImpl.cpp:116-122 | the shares of all weights sum to the mass |
| BlockFrequencies.SharesFair | llvm/lib/Analysis/BlockFrequencyInfoImpl.cpp:116-122 | each weight in turn gets its part of the mass that is left, up to rounding |
| BlockFrequencies.LoopData.GetHeaderIndex | llvm/include/llvm/Analysis/BlockFrequencyInfoImpl.h:255-260 | the header index found by binary search is the header's position |
| BlockFrequencies.LoopData.TestHeader | llvm/include/llvm/Analysis/BlockFrequencyInfoImpl.h:245-251 | a block is reported a header exactly if it is among the first NumHeaders nodes |
| BlockFrequencies.Assign | llvm/lib/Analysis/BlockFrequencyInfoImpl.cpp:432-458 | one taken mass goes to the block, header or exit its type says, saturating, and nowhere else; if there is room all of it is on the books of blocks, headers and exits |
| BlockFrequencies.DistributeMass | llvm/lib/Analysis/BlockFrequencyInfoImpl.cpp:426-459 | mass conservation: the masses taken sum to the source mass, if there is an edge at all, each of them proportional to its weight up to rounding; each block, header and exit gets what its edges took, and if nothing saturates the books together grow by exactly the source mass |
| BlockFrequencies.FewEdgesAreRoomy | llvm/lib/Analysis/BlockFrequencyInfoImpl.cpp:226-268 | without an overflow 2^31 edges always leave room for the least weights of 1 |
| IrreducibleHeaders.IrreducibleGraph.AddEdge | llvm/lib/Analysis/BlockFrequencyInfoImpl.cpp:647-658 | an edge is recorded once at both ends, unless it goes to a header of the enclosing loop or out of the graph |
| IrreducibleHeaders.MirrorOneMore | llvm/lib/Analysis/BlockFrequencyInfoImpl.cpp:655-657 | predecessor and successor lists stay mirror images |
| IrreducibleHeaders.FindIrreducibleHeaders | llvm/lib/Analysis/BlockFrequencyInfoImpl.cpp:678-745 | headers and others split the component, both sorted; a block is a header exactly if it has an edge from outside, or one from inside that does not come from an earlier block nor from a block entered from outside |
| IrreducibleHeaders.OthersComeAfter | llvm/lib/Analysis/BlockFrequencyInfoImpl.cpp:713-737 | every predecessor of a block that is no header is an entry or comes before it |
| IrreducibleHeaders.CyclesPassHeaders | llvm/lib/Analysis/BlockFrequencyInfoImpl.cpp:678-745 | every cycle inside the component passes through a header |
| MassPropagation.AddToDist | llvm/lib/Analysis/BlockFrequencyInfoImpl.cpp:291-351 | each edge is added with its type, or the call aborts exactly on a local backedge from a block that is no header |
| MassPropagation.PropagateMassToSuccessors | llvm/include/llvm/Analysis/BlockFrequencyInfoImpl.h:1306-1333 | propagation succeeds exactly if no edge aborts, and then conserves the mass, also on the books if nothing saturates; otherwise nothing moves |
| MassPropagation.IrreducibleLoopsAreHandled | llvm/lib/Analysis/BlockFrequencyInfoImpl.cpp:330-346 | inside a component whose headers were chosen no edge aborts: the assertion about irreducible control flow holds |
| MassPropagation.SplitNeverAborts | llvm/lib/Analysis/BlockFrequencyInfoImpl.cpp:330-346 | from every block of such a component, in a graph built by adding edges, propagation does not abort |
| MassPropagation.CreateIrreducibleLoop | llvm/lib/Analysis/BlockFrequencyInfoImpl.cpp:747-771 | the loop made of a component with two entries is split by its headers, and propagation inside it never aborts |
| CfgBackedges.FindFunctionBackedges | llvm/lib/Analysis/CFG.cpp:27-66 | the search ends, every reported edge lies on a cycle of which it is the only reported edge, and every cycle reachable from the entry contains a reported edge |
| CfgBackedges.FinishFalls | llvm/lib/Analysis/CFG.cpp:27-66 | along a path without reported edges finishing times fall |
| CfgReachability.GetOutermostLoop | llvm/lib/Analysis/CFG.cpp:113-121 | the outermost loop around a block |
| CfgReachability.StepLoop | llvm/lib/Analysis/CFG.cpp:161-166 | replacing a loop by its exits loses no path |
| CfgReachability.IsPotentiallyReachableFromMany | llvm/lib/Analysis/CFG.cpp:130-172 | a negative answer means no path; a positive one means a path or that 32 other blocks were met first |
| CfgReachability.IsPotentiallyReachable | llvm/lib/Analysis/CFG.cpp:174-184 | the same from a single block |
| CfgReachability.IsPotentiallyReachableInstr | llvm/lib/Analysis/CFG.cpp:186-236 | a negative answer means no path between the instructions, in the same block and entry block cases, too; a positive one means a path, a cut-off search, a start in the entry block, or one block of a loop |
| AliasAggregation.Alias | llvm/lib/Analysis/AliasAnalysis.cpp:102-110 | the first answer other than may-alias |
| AliasAggregation.PointsToConstantMemory | llvm/lib/Analysis/AliasAnalysis.cpp:112-119 | constant exactly if some analysis says so |
| AliasAggregation.MeetLoop | llvm/lib/Analysis/AliasAnalysis.cpp:121-133 | the bits all analyses agree on, with the early exit at the bottom |
| AliasAggregation.GetModRefBehavior | llvm/lib/Analysis/AliasAnalysis.cpp:347-374 | the intersection of all behaviors, early exit included |
| AliasAggregation.GetModRefInfoCallLoc | llvm/lib/Analysis/AliasAnalysis.cpp:156-216 | the exact bits for a call and a location, as a formula over the analyses |
| AliasAggregation.CallLocSound | llvm/lib/Analysis/AliasAnalysis.cpp:156-216 | if every analysis is right about an execution, the answer drops no bit the call exhibits on the location |
| AliasAggregation.CallLocModExact | llvm/lib/Analysis/AliasAnalysis.cpp:156-216 | a call may write a location exactly if every analysis says so of both, calls it a writing one and the location not constant, and a confined call has an argument that may lead there |
| AliasAggregation.CallLocRefExact | llvm/lib/Analysis/AliasAnalysis.cpp:156-216 | the same for reading, constant locations included and calls that write nothing taken to read |
| AliasAggregation.CallLocMustExact | llvm/lib/Analysis/AliasAnalysis.cpp:180-216 | an answer that leaves a bit says must exactly if every pointer argument of a confined call must alias the location, or some analysis says so of another call |
| AliasAggregation.NoWorseThanAny | llvm/lib/Analysis/AliasAnalysis.cpp:121-165 | an answer for a call and a location, or for an argument, is never worse than that of any one analysis |
| AliasAggregation.AnotherAnalysisRefines | llvm/lib/Analysis/AliasAnalysis.cpp:177-180 | another analysis only takes bits away, unless exactly a write-only call becomes read-only, too, anywhere in memory and the direct answers leave Ref |
| AliasAggregation.AnotherAnalysisMayAddRef | llvm/lib/Analysis/AliasAnalysis.cpp:177-180 | in that case Ref comes back: two analyses, both right about some execution, that show it |
| CallDependence.GetModRefInfoCallCall | llvm/lib/Analysis/AliasAnalysis.cpp:218-345 | the exact mod and ref bits for two calls, and, if one is left, the must bit exactly if the arguments looked at say so |
| CallDependence.RefineBySecond | llvm/lib/Analysis/AliasAnalysis.cpp:259-305 | accumulating over the second call's arguments until nothing can be added gives the full union |
| CallDependence.RefineByFirst | llvm/lib/Analysis/AliasAnalysis.cpp:307-342 | the same over the first call's arguments |
| CallDependence.CallCallSound | llvm/lib/Analysis/AliasAnalysis.cpp:218-345 | the answer for two calls drops no bit that two accesses to one address exhibit |
| CallDependence.CallCallModExact | llvm/lib/Analysis/AliasAnalysis.cpp:218-345 | the first call may write what the second touches exactly if every analysis says so, the second touches memory, and confined calls have an argument through which they do |
| CallDependence.CallCallRefExact | llvm/lib/Analysis/AliasAnalysis.cpp:218-345 | the same for reading what the second writes |
| CallDependence.NoWorseForCalls | llvm/lib/Analysis/AliasAnalysis.cpp:223-227 | the answer for two calls is never worse than that of any one analysis |
| CallDependence.GetModRefInfoInstrCall | llvm/lib/Analysis/AliasAnalysis.cpp:135-154 | both bits for a memory instruction exactly if the call touches its location |
| CallDependence.InstrCallSound | llvm/lib/Analysis/AliasAnalysis.cpp:135-154 | a call that touches what an instruction accesses is never called independent |
| ThreadBarriers.WaitForThreads.Block | llvm/examples/ParallelJIT/ParallelJIT.cpp:166-192 | the last thread awaited releases all, the others wait, and the assertion on n holds |
| ThreadBarriers.WaitForThreads.ReleaseThreads | llvm/examples/ParallelJIT/ParallelJIT.cpp:196-214 | releases at once if enough threads are blocked, otherwise sets the target and waits |
| ThreadBarriers.WaitForThreads.UnblockThreads | llvm/examples/ParallelJIT/ParallelJIT.cpp:218-233 | the counters are reset and everyone waiting is woken |
| ThreadBarriers.NoneReturnsEarly | llvm/examples/ParallelJIT/ParallelJIT.cpp:166-217 | no thread gets past the barrier before all workers and the releaser are there |
| ThreadBarriers.RunsEnd | llvm/examples/ParallelJIT/ParallelJIT.cpp:166-217 | runs have at most two events a thread |
| ThreadBarriers.StuckMeansReturned | llvm/examples/ParallelJIT/ParallelJIT.cpp:166-217 | a run that cannot go on has every thread returned, whatever the order of arrival |
| ThreadBarriers.AssertionNeverFails | llvm/examples/ParallelJIT/ParallelJIT.cpp:174 | the counter never passes the target, whatever number is asked for |
| ThreadBarriers.RightCountOnly | llvm/examples/ParallelJIT/ParallelJIT.cpp:193-214 | every maximal run completes if and only if the number asked for is the number of workers |
| ThreadBarriers.SpuriousWakeupBreaksBarrier | llvm/examples/ParallelJIT/ParallelJIT.cpp:181-186 | the wait is not in a loop: one spurious wakeup lets a worker through alone |
| CaseFold.Mappings | llvm/utils/unicode-case-fold.py:29-42 | the entries in order, or an error exactly if the characters mapped are not strictly increasing from line to line |
| CaseFold.DumpExact | llvm/utils/unicode-case-fold.py:60-93 | the tests of a block map its keys and leave every other character, the C | 1 and stride-1 forms included |
| CaseFold.Generator.DumpBlock | llvm/utils/unicode-case-fold.py:60-93 | appends the tests of the block |
| CaseFold.Generator.Generate | llvm/utils/unicode-case-fold.py:95-117 | the generated function maps every key and returns every other integer unchanged |
| Sha256Blocks.FillSchedule | llvm/include/picosha2.h:123-130 | the array of words is the message schedule of section 6.2.2 |
| Sha256Blocks.Hash256Block | llvm/include/picosha2.h:117-163 | one block is hashed into the digest as in section 6.2.2 |
| Sha256Example.AbcDigest | llvm/include/picosha2.h:40-163 | the digest of the message abc is the one of the published example of FIPS 180-4, by every word of its schedule and every round |
| Sha256Streaming.PassCarries | llvm/include/picosha2.h:223-237 | carries are passed up, keeping the number modulo 2^64 |
| Sha256Streaming.AddToDataLength | llvm/include/picosha2.h:222-237 | the counter advances by the 32-bit sum of its low digit and the length |
| Sha256Streaming.CountsRight | llvm/include/picosha2.h:222-237 | the count is never too large, and right after a piece exactly if it was right before and the low digit and the piece together fit 32 bits |
| Sha256Streaming.WriteDataBitLength | llvm/include/picosha2.h:239-264 | the last eight bytes are eight times the count, big-endian |
| Sha256Streaming.LengthFieldValue | llvm/include/picosha2.h:239-264 | those eight bytes are the digits of the length to the base 256 |
| Sha256Streaming.ContinueFromTail | llvm/include/picosha2.h:182-190 | hashing on from the kept tail is hashing the whole message |
| Sha256Streaming.HashWholeBlocks | llvm/include/picosha2.h:187-189 | all whole blocks are hashed in place and the tail is what remains |
| Sha256Streaming.Hash256OneByOne.Process | llvm/include/picosha2.h:182-190 | the digest, buffer and counter stand for the message so far |
| Sha256Streaming.Hash256OneByOne.Finish | llvm/include/picosha2.h:192-212 | the digest is that of the padded message; with a right count, SHA-256 of the message |
| Sha256Streaming.OneLastBlock | llvm/include/picosha2.h:192-212 | with up to 55 bytes left, marker and length fit one block |
| Sha256Streaming.TwoLastBlocks | llvm/include/picosha2.h:192-212 | otherwise the padding takes two |
| Sha256Streaming.Hash256OneByOne.GetHashBytes | llvm/include/picosha2.h:214-220 | the bytes of the digest words, high first, as far as the output reaches |
| Sha256Streaming.DigestBytesMakeWord | llvm/include/picosha2.h:214-220 | the four bytes of a digest word, read as a big-endian word, are the word |
| Sha256Streaming.HashPieces | llvm/include/picosha2.h:182-212 | for every split the length counted is right exactly if every piece fits the counter, and then streaming equals one-shot |
| Sha256Streaming.Hash256 | llvm/include/picosha2.h:270-277 | one-shot hashing is SHA-256 for messages below 2^32 bytes |
| CheckPrefixes.OtherSetValues | llvm/utils/update_mca_test_checks.py:294-299 | exactly the prefixes RUN lines of other texts carry |
| CheckPrefixes.PruneText | llvm/utils/update_mca_test_checks.py:302-324 | kept prefixes belong to this text only: the least one that all its RUN lines carry, or if there is none exactly the least one of each line that has any |
| CheckPrefixes.PruneBlock | llvm/utils/update_mca_test_checks.py:289-324 | every text of a block is pruned this way, each with respect to all the others |
| CheckPrefixes.KeptBelongsToOneText | llvm/utils/update_mca_test_checks.py:289-324 | a kept prefix belongs to one text, and every RUN line carrying it produced that text |
| CheckPrefixes.PrunedHaveOneOwner | llvm/utils/update_mca_test_checks.py:326-335 | after pruning, prefixes can tell lines apart and the common prefix is not among them |
| CheckPrefixes.Flush | llvm/utils/update_mca_test_checks.py:174-178 | flushing the batches appends to each prefix's view exactly its batch |
| CheckPrefixes.BatchLine | llvm/utils/update_mca_test_checks.py:193-197 | a differing line is batched under each prefix of its text |
| CheckPrefixes.BreakDownBlock | llvm/utils/update_mca_test_checks.py:143-202 | nothing exactly if the first lines differ or lines cannot be told apart; otherwise each prefix together with the common one reproduces its text, and the common one alone the lines that are the same in all texts |
| ItaniumNames.ParseNumbered | llvm/utils/extract_symbols.py:225-231 | exactly if a length comes first: it and as many characters as it says, with nothing of the string lost |
| ItaniumNames.ParseName | llvm/utils/extract_symbols.py:224-243 | a length and its characters, a two-character constructor or destructor, or everything up to the first E; with the rest they are the string |
| ItaniumNames.SkipItaniumTemplate | llvm/utils/extract_symbols.py:246-276 | the loop skips exactly what the grammar of template arguments says, on every string |
| ItaniumNames.ParseItaniumNestedName | llvm/utils/extract_symbols.py:280-318 | the loop returns exactly the names the grammar of nested names says, on every string |
| ItaniumNames.ArgsRoundTrip | llvm/utils/extract_symbols.py:246-276 | printed template arguments are skipped up to their end |
| ItaniumNames.SkipArgsJustified | llvm/utils/extract_symbols.py:246-276 | on every string skipping succeeds only up to an E, and raises the exception only if there is an L or X |
| ItaniumNames.ComponentsJustified | llvm/utils/extract_symbols.py:290-318 | the same for the names of a nested name |
| ItaniumNames.ExpressionRefused | llvm/utils/extract_symbols.py:266-269 | an L or X behind printed arguments raises the exception |
| ItaniumNames.PrefixPassed | llvm/utils/extract_symbols.py:280-293 | a substitution and qualifiers in front of printed names are passed over |
| ItaniumNames.NestedRoundTrip | llvm/utils/extract_symbols.py:280-318 | printing a nested name and parsing it returns its names and the untouched rest |
| ExceptionTables.EncodeURoundTrip | llvm/examples/ExceptionDemo/ExceptionDemo.cpp:335-352 | the value of a ULEB128 encoding is the number encoded, and its length that of the encoding |
| ExceptionTables.EncodeSRoundTrip | llvm/examples/ExceptionDemo/ExceptionDemo.cpp:359-379 | the same for SLEB128 |
| ExceptionTables.LebExamples | llvm/examples/ExceptionDemo/ExceptionDemo.cpp:335-379 | the encodings of the examples of section 7.6 of the DWARF 3 standard |
| ExceptionTables.ReadableU | llvm/examples/ExceptionDemo/ExceptionDemo.cpp:335-352 | the shifts stay within an int exactly for numbers below 2^31 |
| ExceptionTables.ReadableS | llvm/examples/ExceptionDemo/ExceptionDemo.cpp:359-379 | for signed numbers exactly from -2^27 up to 2^31 |
| ExceptionTables.TableRoundTrip | llvm/examples/ExceptionDemo/ExceptionDemo.cpp:653-662 | a printed call-site table is read back as its sites |
| ExceptionTables.ReadHeader | llvm/examples/ExceptionDemo/ExceptionDemo.cpp:624-651 | the encoding and bounds of the call-site table behind the optional fields of the header |
| ExceptionTables.ReadSite | llvm/examples/ExceptionDemo/ExceptionDemo.cpp:653-662 | the four fields of a call site |
| ExceptionTables.TableExample | llvm/examples/ExceptionDemo/ExceptionDemo.cpp:624-662 | a header, a table of one call site and a little-endian field, byte by byte |
| ExceptionTables.ReadULEB128 | llvm/examples/ExceptionDemo/ExceptionDemo.cpp:335-352 | reads the value and consumes exactly its bytes |
| ExceptionTables.ReadSLEB128 | llvm/examples/ExceptionDemo/ExceptionDemo.cpp:359-379 | the same with the sign extended |
| ExceptionTables.FirstMatch | llvm/examples/ExceptionDemo/ExceptionDemo.cpp:528-579 | the position of the first action that catches the type |
| ExceptionTables.HandleActionValue | llvm/examples/ExceptionDemo/ExceptionDemo.cpp:502-582 | on a finite chain the walk finds an action with a positive offset whose type is that of the exception if there is one, and returns the position of the first |
| ExceptionTables.HandleLsda | llvm/examples/ExceptionDemo/ExceptionDemo.cpp:596-762 | what each phase does at the first call site covering the pc, read from the bytes of the header and the tables |
| ExceptionTables.FirstSiteDecides | llvm/examples/ExceptionDemo/ExceptionDemo.cpp:664-757 | the first call site with a landing pad and the pc in its range decides: the search phase reports a handler exactly if one of its actions catches, the later one enters its landing pad with the position of the first that does, 0 for a cleanup |
| ExceptionTables.PhasesAgree | llvm/examples/ExceptionDemo/ExceptionDemo.cpp:697-757 | the search phase reports a handler exactly when the later phase installs a nonzero selector, that of a catching action of the same site |

## Left out

- BrainF: the JIT, bitcode output, the module verifier and the declarations of library functions; `free` and `memset` have only the effect on the tape that the program can see.
- AliasSetTrackers: unknown instructions, AA metadata, volatile flags, `clear`, `add` for the instruction kinds and for another tracker, and the 27-bit width of the reference count; a record is retargeted before, not after, the old set is released.
- AliasSetTrackers.AliasSetTracker.DeleteValue: the size of a must-alias set is not decreased, as in the code, so only the sizes of may-alias sets are exact after deletions.
- AliasSetTrackers.AliasSetTracker.OverlappingShareASet: after an operation that leaves a first pointer not covering its set, or a copy that does not fit the set of its original, the result is not claimed until the tracker saturates, because later insertions can break it (`InsertionsNeedCover`).
- BlockDistributions.Distribution.Normalize: after a 64-bit overflow and with more than two targets the 32-bit bound is stated under a sufficient condition on the combined weights, not an exact one, which would depend on how each weight rounds; `TwoTargetsOverflow` is exact for two.
- BlockFrequencies: the mass of packaged loops (`getMass` through loop packages), Scaled64 arithmetic, loop scales, header mass adjustment and the final integer conversion.
- MassPropagation: which block stands for a packaged loop, and whether it is in the loop being processed, is given by the caller.
- CfgReachability.IsPotentiallyReachableInstr: that both instructions in one block of a loop reach each other is not claimed, because `ValidLoops` does not say that a loop has a back edge.
- CfgReachability: building dominator trees and loop information, unreachable blocks' special cases in them, `isCriticalEdge` and `GetSuccessorNumber`.
- AliasAggregation: the queries for single loads, stores, fences and atomic instructions, `callCapturesBefore`, and the function-level behavior query, which repeat the loops shown here.
- AliasAggregation.GetModRefInfoCallLoc: the must bit is computed as in the code, and no meaning in terms of executions is proved for it.
- ThreadBarriers: pthread error codes, several releasers, and reuse of the barrier; critical sections are atomic steps.
- CaseFold: fetching and matching the database lines, comments and formatting of the generated text; a 32-bit `int` for C.
- Sha256Streaming: iterator categories and hex output; `uint8_t` masks are the identity on bytes; the carry in `write_data_bit_length` is added where the code ors disjoint bits.
- CheckPrefixes: running the tool, splitting its output into blocks, warnings, and writing the file.
- ItaniumNames: strings with newlines, digits outside ASCII, the Microsoft and stdcall decorations, and the rules that decide which symbols to keep.
- ExceptionTables.ReadULEB128: inputs whose shift leaves a 32-bit `int` (a sixth byte, or a fifth one of 8 or more) are excluded, as C++ gives that shift no meaning; `ReadableU` says exactly which numbers that concerns.
- ExceptionTables.ReadSLEB128: the same; `ReadableS` says exactly which numbers that concerns.
- ExceptionTables.HandleLsda: relative, indirect and signed pointer encodings, and the type table, which the caller gives as a function.
- ExceptionTables: filters, which the code refuses.
