# Vectorscan: a verified model of its core algorithms

Vectorscan compiles regular expressions and literals into a database and scans data with it, in one block, in a
stream of writes, or over a vector of blocks. Its hot paths are optimised forms of simple specifications. This
project models seven of its components in Dafny and proves that the fast form does what the simple one says:

- the compiler pass that removes word-boundary assertion vertices from an expression graph (`Assert*.dfy`);
- the compiler of the FDR literal matcher: grouping literals into buckets by a pruned dynamic program, and building
  the match table by walking the subsets of a don't-care mask (`Literals`, `Chunks`, `Buckets`, `BucketAssignment`,
  `Bits`, `SubsetWalk`, `FdrMasks`, `FdrTable`), the shift-or scan that reads it (`FdrScan`), and the runtime's boundary
  zones (`FdrZones`);
- the reference NFA matcher, exact and approximate (`Nfa*.dfy`, `StateSets`, `MatchFilter`);
- match deduplication and logical combinations (`DedupeSpec`, `Deduper`, `LogicalCombination`);
- streams: history, the termination latch, vectored scanning, matches across writes (`StreamSpec`, `StreamRuntime`,
  `StreamSessions`, `StreamLaws`), and the stream compressor with its multibit codec (`Multibit`, `MultibitCodec`,
  `MultibitKeys`, `StreamPlan`, `StreamCodec`, `StreamCuts`, `StreamCompression`);
- scratch growth and layout (`MultibitBuild`, `Scratch`, `ScratchLayout`);
- the CRC-32C checksum and the serialized database (`Xors`, `Crc32c`, `DatabaseFormat`, `Database`).

`Common` and `Ranges` hold the types and small facts shared by all. Code that changes things step by step is modelled by
classes and methods with loops, each tied to a specification function or predicate over values; the laws are lemmas
about those. `dafny verify dfyconfig.toml` checks everything.

## Where the code does less than its documentation or design says

- **Assertion masks.** `replaceAssertVertex` stores the mask of the removed vertex on a new edge, not the mask of the
  whole path. The two agree exactly under a containment of masks (`AssertFlags.StoredMaskExactIff`). The parser puts only
  the masks of `\b` and `\B` on vertices and none on edges (src/parser/ComponentWordBoundary.cpp:82-94), so the pass is
  exact on every graph that comes from an expression (`AssertElimination.ParsedExact`). For other masks an edge can be
  invented (`AssertElimination.IncompatibleMaskInventsEdge`, a graph that no expression gives), though none is ever lost
  (`AssertElimination.EliminationCovers`).
- **Loops at a Hamming distance.** The documentation promises every text within the distance. The transition tables leave
  self-loops out of replacing, so a text is found if and only if it can be had without replacing a byte on an edge that
  stays at its vertex (`NfaMatcher.FindMatches`); graphs without such loops, and edit distances, have nothing to miss.
  `NfaReports.ReplacedLoopMissed` is `^a+b` against `aXb` at distance one.
- **Late starts.** `filterMatches` starts its minimum at the largest 32-bit value, so an end all of whose starts lie
  beyond it is dropped (`MatchFilter.FilterExactIff`, `MatchFilter.LateStartIsLost`).
- **Last flush.** A scan that ends at offset 2^64 - 2 loses the start-of-match reports of that offset: nothing is lost if
  and only if there is none there (`Deduper.AllRaisedIff`). `Deduper.LateReportLost` is a scan that raises nothing.
- **History in compressed streams.** The offset is cut to 32 bits before the amount of history is chosen. The live
  history survives compressing and expanding over every memory if and only if the cut does not bite
  (`StreamPlan.HistoryWholeIff`, `StreamCompression.LiveHistoryIff`).
- **Truncated buffers.** Expanding does not check the buffer length for flat multibits or for the root of a pyramid.
  There are two questions. First, the form is whole in memory and only the stated size is too small: every smaller size
  is refused if and only if the form ends in a checked part (`StreamCompression.ShortSizeRefusedIff`);
  `StreamCompression.TruncationAccepted` is a stream for which it does not. Second, the form is cut after n bytes and
  other bytes follow. The cut is refused whatever follows if and only if it lies in the offset or in a raw part, or in a
  pyramid with a root bit among the known bytes, or a raw part behind it is sure to be read: a fixed one, that of an
  active engine, or the slot of a key known to be valid (`StreamPlan.CutRefused`). `StreamCompression.ExpandStream`
  refuses then; otherwise there is a stream whose form continues the cut one and is accepted
  (`StreamCompression.CutRefusedOrContinues`, `StreamCompression.ExpandContinued`). `StreamCompression.CheckedTailCut` is
  a form of eleven bytes of which every smaller size is refused while it stays in memory, but not its first nine bytes
  with others behind.
- **Reset after an error elsewhere.** The error test after the end-of-data report reads the status left in scratch. A
  broken stream that is reset with a callback is reset if and only if scratch carries no error
  (`StreamSessions.BrokenResetIff`); `StreamSessions.ResetWithoutEffect` is a run in which it stays stopped.

## Model

| member | source | states |
|---|---|---|
| `AssertFlags.ContextBits` | src/parser/position.h:45-61 | which bit of a mask stands for which pair of word classes, plain and UCP |
| `AssertFlags.ConjunctMeaning` | src/compiler/asserts.cpp:97-115 | the conjunction of two masks is passable exactly where both are, and the dead value means nowhere |
| `AssertFlags.DisjunctMeaning` | src/compiler/asserts.cpp:79-95 | the disjunction is passable exactly where one is |
| `AssertFlags.PathMeaning` | src/compiler/asserts.cpp:136-165 | the composed mask of a path in-edge, vertex, out-edge is passable exactly where all three are |
| `AssertFlags.PathFlagsIsVertexMask` | src/compiler/asserts.cpp:154-182 | for compatible masks the composed mask is the vertex mask or dead |
| `AssertFlags.VertexMaskCoversPath` | src/compiler/asserts.cpp:169-182 | the stored vertex mask never shuts out what the path allows |
| `AssertFlags.StoredMaskExactIff` | src/compiler/asserts.cpp:136-182 | the stored mask is exact in every context if and only if both edge masks are open or contain it |
| `AssertElimination.WalkCut` | src/compiler/asserts.cpp:119-202 | a walk through a set of assertion vertices and t splits at t into walks through the set alone |
| `AssertElimination.EliminatedEdge` | src/compiler/asserts.cpp:119-202 | after removing t an edge is open where it was, or where the path through t was; and nowhere else for compatible masks |
| `AssertElimination.FollowsStep` | src/compiler/asserts.cpp:119-202 | reachability through one more assertion vertex is reachability without it or by one detour through it |
| `AssertElimination.EliminationCovers` | src/compiler/asserts.cpp:272-298 | removing any list of assertion vertices keeps every walk through them |
| `AssertElimination.EliminationSound` | src/compiler/asserts.cpp:272-298 | for compatible masks it adds none |
| `AssertElimination.MarkedIsAssert` | src/compiler/asserts.cpp:67-74 | the vertices the pass removes are exactly those whose mask names a context bit, plain or UCP |
| `AssertElimination.EliminationClears` | src/compiler/asserts.cpp:198-201 | once a vertex is removed no edge starts or ends there, whatever is removed later |
| `AssertElimination.EliminationExact` | src/compiler/asserts.cpp:272-298 | when all vertices that name a context bit are removed, an edge between the others is open in a context iff the original graph had a walk through removed vertices with every flag satisfied, barred pairs aside |
| `AssertElimination.ParsedExact` | src/parser/ComponentWordBoundary.cpp:75-98 | on every graph whose assertion vertices are the `\b` and `\B` the parser makes, plain or UCP, removing exactly those keeps the meaning exactly |
| `AssertElimination.IncompatibleMaskInventsEdge` | src/compiler/asserts.cpp:169-182 | a graph with an incompatible mask for which the pass opens an edge that no walk justifies |
| `AssertPass.Holder.constructor` | src/compiler/asserts.cpp:272-286 | the edge table holds exactly the given simple graph |
| `AssertPass.Holder.BuildEdgeCache` | src/compiler/asserts.cpp:287-291 | the cache agrees with the graph |
| `AssertPass.Holder.Bridge` | src/compiler/asserts.cpp:169-194 | one direct edge is added or widened, counted iff new, cache and graph still agree, and it fails exactly beyond the edge limit |
| `AssertPass.Holder.BridgeColumn` | src/compiler/asserts.cpp:143-196 | one path through t is dealt with, the edges at t stay, the new edges are counted |
| `AssertPass.Holder.BridgeRow` | src/compiler/asserts.cpp:126-196 | every path from one predecessor of t is dealt with, failing exactly beyond the edge limit |
| `AssertPass.Holder.ClearVertex` | src/compiler/asserts.cpp:198-201 | all edges at t are gone, all others stay, the cache still agrees on vertices in use |
| `AssertPass.CountExact` | src/compiler/asserts.cpp:175-194 | the count grows by exactly the pairs of neighbours of t that a path joins and no edge did |
| `AssertPass.Holder.ReplaceAssertVertex` | src/compiler/asserts.cpp:119-202 | in-place rewriting over the edges that existed equals the one-vertex elimination, with the exact number of new edges; it fails iff that exceeds the limit |
| `AssertPass.AssertVerticesExact` | src/compiler/asserts.cpp:287-291 | the vertices replaced are exactly the assertion vertices, each once |
| `AssertPass.Holder.RemoveAssertVertices` | src/compiler/asserts.cpp:272-298 | the pass computes the elimination of all assertion vertices, and fails iff the new edges exceed the limit |
| `AssertPass.RunPass` | src/compiler/asserts.cpp:272-298 | whole pass: fails iff more than 300000 edges are added; else no edge is left at a vertex whose mask names a context bit, every succession of the other vertices is kept in every context, and none is added when masks are compatible |
| `Literals.EquivOfSameString` | src/fdr/fdr_compile.cpp:291-304 | identical strings always count as equivalent |
| `Literals.EquivBesidesCase` | src/fdr/fdr_compile.cpp:291-304 | literals count as equivalent iff they are equal, or are so but for case and the last caseless literal is too |
| `Literals.BeforeIs` | src/fdr/fdr_compile.cpp:405-418 | the order: shorter first, then the last differing byte as a signed one, then caseless before caseful |
| `Literals.StableSort` | src/fdr/fdr_compile.cpp:405-418 | sorting permutes the literals and sorts them by length, then reversed text |
| `Literals.SameStringContiguous` | src/fdr/fdr_compile.cpp:405-418 | equal strings are neighbours in the sorted list |
| `Literals.SortedByLength` | src/fdr/fdr_compile.cpp:405-418 | lengths never fall along the sorted list |
| `Chunks.AssignChunks` | src/fdr/fdr_compile.cpp:314-382 | chunks are non-empty, contiguous, cover all literals, number at most 512 with the sentinel; each starts exactly at the first literal that is not an equivalent and has another length below 16, or fills the chunk of literals / (512 - min(16, lengths)) + 1; only the last of a full table may take in anything |
| `Chunks.ChunkOfOneLength` | src/fdr/fdr_compile.cpp:350-352 | a chunk of literals shorter than 16 bytes holds one length only |
| `Chunks.OverfullByEquivalents` | src/fdr/fdr_compile.cpp:343-352 | beyond the allowed number a chunk of literals longer than one byte takes in only equivalents of the literal before |
| `Chunks.ChunksUnique` | src/fdr/fdr_compile.cpp:314-382 | the literals and the allowed number determine the chunks |
| `Chunks.NoChunkBetweenSameStrings` | src/fdr/fdr_compile.cpp:343-366 | no chunk boundary separates equal strings |
| `Chunks.NoChunkWithinCaseVariants` | src/fdr/fdr_compile.cpp:287-304 | no chunk boundary lies within the case variants that follow a caseless literal |
| `Buckets.OneGroupOptimal` | src/fdr/fdr_compile.cpp:432-438 | the first column is the only split into one group |
| `Buckets.PruningIsSafe` | src/fdr/fdr_compile.cpp:445-448 | once the head group alone costs more than the best split, no later split is better |
| `Buckets.BestSplit` | src/fdr/fdr_compile.cpp:440-456 | the pruned inner loop finds the best over all split points |
| `Buckets.BestIsOptimal` | src/fdr/fdr_compile.cpp:440-456 | best over head groups and optimal tails is optimal over all splits into one more group |
| `Buckets.FillTable` | src/fdr/fdr_compile.cpp:432-458 | every table entry is the minimum over all splits of the remaining chunks into that many non-empty groups, with its link |
| `Buckets.FollowExact` | src/fdr/fdr_compile.cpp:471-501 | following links yields a split whose cost is the table entry |
| `Buckets.FollowLinks` | src/fdr/fdr_compile.cpp:471-501 | exactly the wanted number of buckets at minimum cost, or one bucket when there are fewer chunks than buckets |
| `Buckets.SplitCostIsSum` | src/fdr/fdr_compile.cpp:449 | the cost of a split is the sum of the scores of its groups |
| `Buckets.OptimalIsLeast` | src/fdr/fdr_compile.cpp:440-456 | an optimal split has the least sum of scores of all splits into that many groups |
| `BucketAssignment.ReversedPartition` | src/fdr/fdr_compile.cpp:503-511 | each literal lies in exactly one bucket, at most the given number of buckets |
| `BucketAssignment.ReversedLongestFirst` | src/fdr/fdr_compile.cpp:503-511 | literals of lower buckets are at least as long as those of higher ones |
| `BucketAssignment.ReversedKeepsTogether` | src/fdr/fdr_compile.cpp:503-511 | equal strings share a bucket |
| `BucketAssignment.AssignStringsToBuckets` | src/fdr/fdr_compile.cpp:384-511 | the whole assignment: permutation, partition, order by length, equal strings together, the chunks exactly where the literals put them, and the least sum of group scores over all groupings of those chunks |
| `SubsetWalk.AndNegIsLowest` | src/fdr/fdr_compile.cpp:611-619 | a mask and its negation meet in its lowest bit |
| `SubsetWalk.NextIsSuccessor` | src/fdr/fdr_compile.cpp:611-619 | the update of the loop moves from the cursor of a subset to that of the next subset |
| `SubsetWalk.SuccessorUp` | src/fdr/fdr_compile.cpp:611-619 | the next subset is larger, except after the full mask, where it is empty |
| `SubsetWalk.SuccessorLeast` | src/fdr/fdr_compile.cpp:611-619 | no subset is left out between |
| `SubsetWalk.WrapsAtEnd` | src/fdr/fdr_compile.cpp:611-619 | the loop test ends the loop exactly after the full mask |
| `SubsetWalk.Subsets` | src/fdr/fdr_compile.cpp:611-619 | the loop visits every subset of the mask exactly once, ascending, and ends |
| `FdrMasks.FitsByBits` | src/fdr/fdr_compile.cpp:526-586 | a byte fits a literal position iff it lies outside the literal or agrees on the kept bits, case bit aside |
| `FdrMasks.CompatibleIsAgreement` | src/fdr/fdr_compile.cpp:526-586 | an index is compatible with a literal at a position iff it agrees with its mask outside its don't-care bits |
| `FdrTable.EntryIndexExact` | src/fdr/fdr_compile.cpp:611-619 | the entry visited for a subset is the one that agrees with the mask and has that don't-care part |
| `FdrTable.FdrCompiler.ClearBit` | src/fdr/fdr_compile.cpp:117-120 | one bit of one entry is cleared, no other |
| `FdrTable.FdrCompiler.ClearSubset` | src/fdr/fdr_compile.cpp:611-619 | for one subset, the bit is cleared in exactly the entries some mask covers |
| `FdrTable.FdrCompiler.ClearEntries` | src/fdr/fdr_compile.cpp:608-620 | over all subsets, the bit is cleared in exactly the entries some mask covers |
| `FdrTable.FdrCompiler.GetMultiEntriesAtPosition` | src/fdr/fdr_compile.cpp:526-586 | the map records exactly the don't-care and mask pairs some literal demands, or reports a literal that allows everything |
| `FdrTable.CoveredIsAllowed` | src/fdr/fdr_compile.cpp:526-621 | entries covered by the map are exactly those some literal allows |
| `FdrTable.FdrCompiler.FillPosition` | src/fdr/fdr_compile.cpp:600-621 | the bit of one bucket and position is cleared exactly where a literal allows the index, or everywhere is reported |
| `FdrTable.FdrCompiler.AndDefault` | src/fdr/fdr_compile.cpp:624-627 | every entry is masked by the default |
| `FdrTable.FdrCompiler.SetupTab` | src/fdr/fdr_compile.cpp:588-631 | the table is exact, byte by byte: bit b of byte pos of an entry is clear iff some literal of bucket b is compatible with the index at that position |
| `FdrTable.NoMissedLiteral` | src/fdr/fdr_compile.cpp:588-631 | a literal that occurs in a text is allowed at every position of its window, so the filter never loses it |
| `FdrTable.CompatibleIffRead` | src/fdr/fdr_compile.cpp:526-586 | and opens nothing in vain: a literal allows at a position exactly the indices that are read there in some text where it occurs |
| `FdrScan.ConfHalf` | src/fdr/x86/fdr_impl.h:33-160 | eight shifted lookups, or fewer by the stride: a bucket comes out as candidate at a byte iff no lookup and not the initial state rules it out; the state left stands for the rest |
| `FdrScan.ScanRun` | src/fdr/x86/fdr_impl.h:33-160 | the same over any number of iterations of sixteen bytes |
| `FdrScan.CandidateIff` | src/fdr/fdr_compile.cpp:588-631 | with an exact table a bucket is a candidate iff the initial state leaves it open and at every lookup one of its literals allows what is read |
| `FdrScan.OccurrenceIsCandidate` | src/fdr/fdr.c:51-63 | a literal that occurs is a candidate where it ends, at every stride |
| `FdrScan.CreateInitialState` | src/fdr/fdr_compile.cpp:129-152 | a bucket is ruled out at one of the first eight bytes iff none of its literals can be over by then |
| `FdrScan.CompileAndScan` | src/fdr/fdr_compile.cpp:588-631 | table, initial state and scan together: every literal that occurs in the buffer is a candidate of its bucket |
| `FdrZones.Zone.CopyOverlapping` | src/fdr/fdr.c:185-192 | two overlapping stores copy 16 to 24 bytes exactly |
| `FdrZones.Zone.CopyData` | src/fdr/fdr.c:143-194 | overlapping fixed-size copies place the last bytes exactly, for every length from 1 to 24 |
| `FdrZones.Zone.CreateShortZone` | src/fdr/fdr.c:118-210 | one-iteration zone: whole iterations after its shift, scanned bytes and the 8 before equal history and buffer, writes inside 64 bytes |
| `FdrZones.Zone.CreateStartZone` | src/fdr/fdr.c:230-276 | the same for the first zone, with the byte after it |
| `FdrZones.Zone.CreateEndZone` | src/fdr/fdr.c:295-345 | the same for the last zone, one or two iterations |
| `FdrZones.PrepareZones` | src/fdr/fdr.c:355-390 | one to three faithful zones tile the scan in order without gap or overlap |
| `NfaGraph.WordChars` | util/ng_find_matches.cpp:825-840 | word characters are letters, digits and the underscore |
| `NfaGraph.Utf8Leads` | util/ng_find_matches.cpp:842-861 | leading bytes of UTF-8 by their high bits |
| `NfaGraph.CanReachIsPassable` | util/ng_find_matches.cpp:864-895 | the matcher's edge test means what the compiler's masks mean |
| `NfaWalks.InitialExact` | util/ng_find_matches.cpp:800-816 | at the start the active set is exact |
| `NfaWalks.Neighbours` | util/ng_find_matches.cpp:864-895 | the neighbours of an offset are the bytes there, and no word character beyond the ends |
| `NfaWalks.FreeWalkIsWalk` | util/ng_find_matches.cpp:800-816 | leaving the floating start out when it leads nowhere loses no walk that could go on to an accept |
| `NfaWalks.StepKeepsExact` | util/ng_find_matches.cpp:957-1044 | one step keeps: active iff some walk accepts the input read, with the least start |
| `NfaWalks.DeadStaysDead` | util/ng_find_matches.cpp:1131-1134 | no walk exists beyond an empty exact set: the early exit loses nothing |
| `StateSets.StateSet.ActivateState` | util/ng_find_matches.cpp:735-742 | a state is added with the smaller of the two starts |
| `StateSets.StateSet.GetActiveStates` | util/ng_find_matches.cpp:619-648 | exactly the active states with their starts |
| `NfaStep.GetSuccessors` | util/ng_find_matches.cpp:651-677 | exactly the successors at any depth the remaining distance allows |
| `NfaStep.StepFrom` | util/ng_find_matches.cpp:971-1040 | all moves of one state are made, no other |
| `NfaStep.Step` | util/ng_find_matches.cpp:957-1044 | the new set is the summary of exactly the moves of the old one, least start first |
| `NfaAlign.SkipTo` | util/ng_find_matches.cpp:61-100 | a successor at depth d has a witnessing alignment with d more edits |
| `NfaAlign.ShadowStepJustified` | util/ng_find_matches.cpp:204-261 | every ordinary state reached is witnessed within its level |
| `NfaAlign.HelperStepJustified` | util/ng_find_matches.cpp:204-261 | every helper state reached is witnessed within its level |
| `NfaAlign.StepKeepsSound` | util/ng_find_matches.cpp:957-1044 | one step keeps: every active state has level within the distance, an alignment with that many edits, substitutions only in Hamming mode, and the start of a run that reaches it |
| `NfaAlign.StepKeepsComplete` | util/ng_find_matches.cpp:957-1044 | one step keeps: every node that a run reaches is active, with no later start |
| `NfaAlign.WholeRunExact` | util/ng_find_matches.cpp:1086-1152 | after any number of bytes the active nodes are exactly those that runs reach, each with the least start, within the distance and with an alignment |
| `NfaSpelling.Waits` | util/ng_find_matches.cpp:800-816 | before a match begins the matcher waits in a start, at no cost |
| `NfaSpelling.FollowScript` | util/ng_find_matches.cpp:957-1044 | every edit script over a path has a run that follows it, with its start and no more edits |
| `NfaSpelling.SkipOver` | util/ng_find_matches.cpp:61-100 | a successor at depth d is reached by skipping d ordinary vertices |
| `NfaSpelling.TellRun` | util/ng_find_matches.cpp:957-1044 | every run has an edit script over a path, with its start and no more edits |
| `NfaReports.SuccessorHasPredecessor` | util/ng_find_matches.cpp:61-138 | the successor and predecessor tables agree at every depth |
| `NfaReports.EndIs` | util/ng_find_matches.cpp:898-945 | a report ends at the offset plus its adjustment, in 64-bit arithmetic |
| `NfaReports.SpellingIsRun` | util/ng_find_matches.cpp:898-945 | every match that can be had by edits within the distance is raised by a run |
| `NfaReports.RunIsSpelling` | util/ng_find_matches.cpp:898-945 | every match raised by a run can be had by edits within the distance |
| `NfaReports.LeftmostRunIsSpelling` | util/ng_find_matches.cpp:1086-1152 | leftmost matches of runs are exactly the leftmost matches that can be had by edits |
| `NfaReports.SameSpellings` | util/ng_find_matches.cpp:218-258 | replacing on self-loops makes no difference at an edit distance or without such loops |
| `NfaReports.ReplacedLoopMissed` | util/ng_find_matches.cpp:226-258 | a text at Hamming distance one from a match that no run finds |
| `MatchFilter.FilterMatches` | util/ng_find_matches.cpp:1048-1080 | keeps per end the least start not above the 32-bit maximum |
| `MatchFilter.FilterExactIff` | util/ng_find_matches.cpp:1048-1080 | equals leftmost per end iff every end has a start within 32 bits |
| `MatchFilter.LateStartIsLost` | util/ng_find_matches.cpp:1048-1080 | a match that the filter drops |
| `NfaMatcher.GetAcceptMatches` | util/ng_find_matches.cpp:898-945 | exactly the matches that the active states raise at an accept |
| `NfaMatcher.ExactIsLeast` | util/ng_find_matches.cpp:957-1044 | at distance zero an active state with its start is the least walk |
| `NfaMatcher.RaisingIsSpelled` | util/ng_find_matches.cpp:898-945 | an active state that raises a report has an alignment to the accept vertex within the whole distance |
| `NfaMatcher.RaisedIsApprox` | util/ng_find_matches.cpp:898-945 | every match raised from a sound set is that of a run: its start, the end of a report its last node raises, end-of-data reports at the last offset only, and an alignment to the accept vertex within the distance |
| `NfaMatcher.FilteredIsLeftmost` | util/ng_find_matches.cpp:1048-1080 | filtered raw matches are exactly the leftmost match per end, for inputs below 2^32 bytes |
| `NfaMatcher.FilteredIsLeftmostRun` | util/ng_find_matches.cpp:1048-1080 | at any distance, filtered raw matches are exactly the leftmost match of all runs per end, for inputs below 2^32 bytes |
| `NfaMatcher.Search` | util/ng_find_matches.cpp:1117-1149 | stepping over the input collects the matches of all runs, each with an alignment, and the early exit loses none |
| `NfaMatcher.FindMatches` | util/ng_find_matches.cpp:1086-1152 | whole run, by the edit and Hamming distances given: refused iff size times (3 distance + 1) exceeds 15000; every match has an alignment within the distance; at any distance exactly the leftmost run per end, and, on the graphs approximate matching is offered for, exactly the leftmost text that can be edited into a path, self-loops at a Hamming distance aside; at distance zero exactly the leftmost accepting walk |
| `DedupeSpec.InEmitBelow` | src/som/som_runtime.c:466-535 | what the flush emits are exactly the recorded ends below a bound with their leftmost start |
| `DedupeSpec.EmitBelowOrdered` | src/som/som_runtime.c:466-535 | in order of end, then key, each once |
| `Deduper.MatchDeduper.ClearSomLog` | src/som/som_runtime.c:466-496 | emits the log of one offset and clears it, or stops at a halting callback |
| `Deduper.MatchDeduper.FlushStoredSomMatches` | src/som/som_runtime.c:498-535 | emits exactly what lies below the new offset, whichever logs were dirty |
| `Deduper.MatchDeduper.MoveTo` | src/report.h:66-92 | moving to an offset keeps the logs exact, from the initial value that wraps too |
| `Deduper.MatchDeduper.DedupeCatchup` | src/report.h:54-117 | a report that is external or quashed continues iff its key and end are new; a start-of-match report is recorded and skipped |
| `Deduper.MatchDeduper.FinishScan` | src/runtime.c:954-959 | the final flush emits everything recorded, but for the current offset when that is 2^64 - 2 |
| `Deduper.RunScan` | src/report.h:54-117 | whole scans up to offset 2^64 - 2: each external report exactly once, start-of-match reports leftmost, ordered and exactly once below the exact bound that is flushed, from stale logs; when the callback halts, exactly what comes up to the first halting one |
| `Deduper.StoppedEarly` | src/som/som_runtime.c:466-535 | what is emitted at any point of a scan is a prefix of what the whole scan emits |
| `Deduper.AllRaisedIff` | src/runtime.c:954-959 | a scan raises all its start-of-match reports iff its last offset is below 2^64 - 2 or none ends there |
| `Deduper.LateReportLost` | src/runtime.c:954-959 | a scan whose only report is never raised |
| `LogicalCombination.EvalWithLeavesOff` | src/report.h:226-275 | with all leaves used off, evaluation does not depend on the other leaves |
| `LogicalCombination.LogicalVector.IsLogicalCombination` | src/report.h:193-223 | the linear pass computes the recursive value of the formula and leaves leaves alone |
| `LogicalCombination.LogicalVector.IsPurelyNegativeMatch` | src/report.h:226-275 | true iff every leaf used is off and the formula holds with all leaves off |
| `StreamSpec.OverwrittenStatusLawful` | src/rose/stream.c:672-684 | the laws asked of engines leave room for one that clears the delay bit or overwrites the status by exhaustion |
| `StreamSpec.ScanLatched` | src/runtime.c:870-977 | a scan makes no callback after a request to stop, keeps the request in the status, does nothing on a broken stream, and its return code says which: terminated, error, success |
| `StreamSpec.TakenIffUsable` | src/runtime.c:958-974 | a write is taken in whole iff the stream is usable after it |
| `StreamSpec.EodLatched` | src/runtime.c:632-710 | end of data makes no callback after a request to stop and leaves it in the status |
| `StreamSpec.RunLatchedThroughout` | src/runtime.c:870-977 | over any run of scans callbacks end for good at the first request to stop, and a broken stream never changes |
| `StreamSpec.LifeLatched` | src/runtime.c:632-710 | the same for any run of scans followed by end of data |
| `StreamSpec.AlikeRuns` | src/runtime.c:1051-1054 | streams that differ only in dead history bytes match alike for ever, so a reset stream is as good as a new one |
| `StreamRuntime.StreamObject.constructor` | src/runtime.c:511-539 | opening gives offset zero, every status bit clear, initial engine state, and the history bytes the memory held |
| `StreamRuntime.StreamObject.Copy` | src/runtime.c:713-738 | a copy has the same state and history of writes, in memory of its own |
| `StreamRuntime.StreamObject.MaintainHistory` | src/runtime.c:478-508 | moving and copying slide the new bytes into the fixed buffer |
| `StreamRuntime.SlideKeepsTail` | src/runtime.c:76-85 | sliding keeps the live tail of the buffer equal to the tail of all data written |
| `StreamRuntime.StreamObject.ScanInternal` | src/runtime.c:870-977 | a scan performs the specified step and keeps the history invariant with the write appended when taken |
| `StreamRuntime.StreamObject.Scan` | src/runtime.c:980-996 | the same through the scratch guard, which is always released |
| `StreamRuntime.StreamObject.ReportEod` | src/runtime.c:632-710 | end of data makes the specified callbacks and writes nothing of the stream but engine state |
| `StreamRuntime.StreamObject.Reset` | src/runtime.c:1028-1058 | code, callbacks, status left and new state in every case: always succeeds without a callback, else iff end of data leaves no error; then as opened but for the history bytes |
| `StreamRuntime.StreamObject.ResetAndCopy` | src/runtime.c:741-778 | the same for overwriting by a copy; refuses exactly itself and other engines, and a scratch in use |
| `StreamRuntime.ScanBlocks` | src/runtime.c:1145-1157 | stopping at the first failing scan leaves the same as scanning every block |
| `StreamRuntime.ScanVector` | src/runtime.c:1107-1174 | the callbacks are those of open, scans of every block and close, whatever the history memory held; a request to stop is reported |
| `StreamSessions.Apply` | src/runtime.c:733-776 | any operation on a pool of stream objects does what it does to the streams as values: streams, callbacks and status left |
| `StreamSessions.Drive` | src/runtime.c:477-539 | over every run of open, write, reset and copy calls the objects hold exactly the streams of the run; each one's offset is the length of its completed writes, its live history the end of their concatenation |
| `StreamSessions.NextRemembers` | src/runtime.c:733-776 | every operation keeps the history invariant of every stream |
| `StreamSessions.RunRemembers` | src/runtime.c:477-539 | after every run every stream remembers exactly the completed writes since it was opened or reset |
| `StreamSessions.BrokenResetIff` | src/runtime.c:1028-1058 | with a callback a broken stream is reset iff scratch carries no error, else nothing changes |
| `StreamSessions.ResetWithoutEffect` | src/runtime.c:1028-1058 | a run in which another stream's error makes the reset of a stopped stream fail |
| `StreamLaws.ShownToEngines` | src/runtime.c:904-907 | engines are shown the last bytes of all completed writes, as many as the database wants, with the true offset and the new data |
| `StreamLaws.StreamFindsWhole` | src/runtime.c:870-977 | however the data is cut into writes, a literal is reported exactly where it ends in the whole, given history for all but its last byte |
| `StreamLaws.ShortHistoryMisses` | src/runtime.c:904-907 | with less history a literal cut before its last byte is missed |
| `StreamLaws.ScanOrder` | src/runtime.c:870-977 | which hooks a write runs, in which order, what each is shown, and that each goes on from the state the one before left |
| `StreamLaws.EodOrder` | src/runtime.c:632-710 | the same for end of data |
| `Multibit.IndexInjective` | src/util/multibit.c:132-140 | different blocks of a pyramid have different places |
| `Multibit.AgreeMeansSame` | src/util/multibit_compress.h:44-82 | pyramids that agree on the blocks in use hold the same keys and compress alike |
| `MultibitCodec.CompSize` | src/util/multibit_compress.h:44-82 | the walk counts exactly the blocks in use |
| `MultibitCodec.Emit` | src/util/multibit_compress.h:104-135 | the iterative walk writes the blocks in use in recursive preorder |
| `MultibitCodec.Compress` | src/util/multibit_compress.h:86-136 | writes the compressed form iff it fits |
| `MultibitCodec.Fill` | src/util/multibit_compress.h:159-199 | restores every block in use and nothing outside the region; refused iff it has a bit set and ends beyond the limit; from a cut image with any bytes behind it is accepted only if no root bit is known |
| `MultibitCodec.Decompress` | src/util/multibit_compress.h:141-200 | the same with the flat form, which is never refused |
| `MultibitCodec.RestoredKeys` | src/util/multibit_compress.h:141-200 | a restored multibit has the same keys on |
| `MultibitKeys.FlatKey` | src/util/multibit.h:403-408 | in a flat multibit key k is bit k |
| `MultibitKeys.RootTable` | src/util/multibit.c:132-140 | the places of the levels as the source tabulates them |
| `MultibitKeys.PyramidKey` | src/util/multibit.h:410-423 | in a pyramid a key is on iff its bit is set on every level |
| `MultibitKeys.PyramidKeyBits` | src/util/multibit.h:222-251 | the same, read off the bytes of each level |
| `StreamPlan.HistoryWholeIff` | src/stream_compress_impl.h:126-127 | the live history travels whole iff the offset is below 2^32 or its low 32 bits reach the history length |
| `StreamPlan.KeepRestored` | src/stream_compress_impl.h:109-184 | restoring the next part leaves the earlier ones restored when regions are apart |
| `StreamPlan.KeepBehind` | src/stream_compress_impl.h:109-184 | reading multibits behind a cut leaves the parts before it restored |
| `StreamCodec.Codec.CopyOffset` | src/stream_compress_impl.h:118 | the offset field in all three instances |
| `StreamCodec.Codec.Copy` | src/stream_compress.c:40-62 | raw parts in all three instances; expanding fails iff beyond the limit |
| `StreamCodec.Codec.CopyMultibit` | src/stream_compress.c:64-94 | multibit parts in all three instances |
| `StreamCodec.Codec.CopyFixed` | src/stream_compress_impl.h:121-155 | the parts every stream has, by the offset just restored |
| `StreamCodec.Codec.CopyKeys` | src/stream_compress_impl.h:157-169 | a walk over the keys of a multibit just restored visits the keys of the stream that was compressed |
| `StreamCodec.Codec.CopyLeftfixes` | src/stream_compress_impl.h:35-71 | active leftfixes that are not transient, each with its lag byte, and no other |
| `StreamCodec.Codec.CopySomInfo` | src/stream_compress_impl.h:74-105 | start-of-match multibits and valid slots |
| `StreamCodec.Codec.Run` | src/stream_compress_impl.h:109-184 | size, bytes written and bytes consumed are the length of the compressed form; expanding it fails iff a checked part ends beyond the limit; expanding a cut form fails whatever follows when the cut is refused |
| `StreamCompression.CompressStream` | src/runtime.c:1178-1202 | reports the needed size, and compresses iff the buffer is large enough |
| `StreamCompression.ExpandStream` | src/runtime.c:1205-1242 | a whole form: offset and all parts restored over any memory, nothing else written, refused exactly when a checked part ends beyond the size; a cut form with any bytes behind: refused when the cut is |
| `StreamCompression.PlanExact` | src/stream_compress_impl.h:35-184 | exactly what travels: the fixed parts, the states of active endfixes, states and lag bytes of active leftfixes that are not transient, and valid slots |
| `StreamCompression.RestoredSurvives` | src/stream_compress_impl.h:109-184 | restored parts mean: status, all multibit keys, groups, long literals, copied history, anchored state while needed; the state of every endfix on; state and lag byte of every leftfix on and in the iterator; every valid slot, at its own place |
| `StreamCompression.RoundTrip` | src/runtime.c:1178-1242 | compressing and expanding any sound stream over any memory restores it, and leaves alone every byte that did not travel |
| `StreamCompression.ShortSizeRefusedIff` | src/stream_compress.c:48-55 | while the form stays in memory, every smaller size is refused iff a checked part reaches the end |
| `StreamCompression.UncheckedTail` | src/util/multibit_compress.h:145-158 | a form ending in an unchecked part is accepted one byte short |
| `StreamCompression.TruncationAccepted` | src/util/multibit_compress.h:145-150 | a ten-byte form accepted from nine bytes |
| `StreamCuts.CutContinues` | src/stream_compress.c:40-94 | for a cut that is not refused, a stream whose form begins with the known bytes and is accepted with that size |
| `StreamCompression.RefusedOverruns` | src/stream_compress.c:48-55 | a cut refused whatever follows is refused too when the form itself follows |
| `StreamCompression.CutRefusedOrContinues` | src/stream_compress.c:40-94 | the condition is exact: a cut that does not meet it is accepted with some bytes behind |
| `StreamCompression.ExpandContinued` | src/runtime.c:1205-1242 | expanding those bytes succeeds |
| `StreamCompression.CheckedTailCut` | src/stream_compress_impl.h:74-105 | a form of which every smaller size is refused in place, but not its first nine bytes followed by others |
| `StreamCompression.LiveHistoryIff` | src/stream_compress_impl.h:126-136 | the live history survives expanding over every memory iff the offset is below 2^32 or its low 32 bits reach the history length |
| `MultibitBuild.LevelHasRoom` | src/util/multibit_build.cpp:61-66 | the last level of a pyramid is the first with room for every key |
| `MultibitBuild.ComputeMmbitSize` | src/util/multibit_build.cpp:49-73 | the loop computes the size of the pyramid, which fits 32 bits, or refuses more than 2^31 keys |
| `MultibitBuild.MmbitSizeGrows` | src/util/multibit_build.cpp:49-73 | more keys never take less room, across the change from flat to pyramid too |
| `MultibitBuild.KeyInside` | src/util/multibit_build.cpp:49-73 | every block on the way to a key lies inside the computed size |
| `MultibitBuild.LastKeyEnds` | src/util/multibit_build.cpp:68-71 | the block of the last key ends exactly at the computed size |
| `MultibitBuild.ComputeFatbitSize` | src/util/fatbit_build.cpp:39-41 | the same with the least size of a fatbit |
| `MultibitBuild.FatbitSizeGrows` | src/rose/rose_build_bytecode.cpp:2474-2481 | dedupe logs, sized as fatbits, never shrink as keys grow |
| `Scratch.Prototype.Raise` | src/scratch.c:299-371 | capacities become the pairwise raised ones, and a reallocation is asked for iff one of them grew |
| `Scratch.AllocScratch` | src/scratch.c:244-388 | fails exactly when the prototype or, if a capacity must grow, the block cannot be had; else the raised capacities, magic and alignment, in the old region iff nothing grew |
| `Scratch.RaisedCovers` | src/scratch.c:299-371 | raising covers the new compiled database and every compiled one covered before |
| `Scratch.RunCovers` | src/scratch.c:299-371 | after any run of compiled databases every one is covered |
| `Scratch.RunLeast` | src/scratch.c:299-371 | and by the least capacities that do: whatever covers the run is at least as large in every field |
| `Scratch.AllocForAll` | src/scratch.c:244-388 | over any run of allocations for compiled databases, each answered by the allocator in its own way, the validity test accepts the scratch for every database served since the last failure, which leaves none |
| `Scratch.CoverageIsEnough` | src/runtime.c:92-117 | a database is covered iff there is room for every array of it, in vectored mode for the stream header before its state too |
| `Scratch.CoverageKeptIff` | src/scratch.c:363-371 | a covered database with keys stays covered iff no database with more keys brings a smaller log |
| `Scratch.RunCoversIff` | src/scratch.c:363-371 | a run covers all its databases iff none has a larger log than the first one with the most keys |
| `ScratchLayout.Carver.TakeFatbitArray` | src/scratch.c:57-69 | pointers and fatbits take exactly the size computed for them, aligned |
| `ScratchLayout.CarveFront` | src/scratch.c:144-188 | queues, stores, slot arrays, queue matches and states in order, disjoint, aligned, block state for the stream header that vectored scans put there |
| `ScratchLayout.CarveMiddle` | src/scratch.c:190-204 | start logs, active queues, handled roles |
| `ScratchLayout.CarveBack` | src/scratch.c:206-229 | match logs, start-of-match sets, full state on a cache line |
| `ScratchLayout.Layout` | src/scratch.c:97-233 | all regions have the sizes their users need, are in order, disjoint, aligned, inside the allocated block at any address |
| `Crc32c.StepIsAdvance` | src/crc32.c:514-521 | a table step is eight bit steps of the polynomial |
| `Crc32c.TopEntry` | src/crc32.c:86 | the polynomial, as the entry of the first table for the top bit |
| `Crc32c.BytewiseIsIterate` | src/crc32.c:514-521 | the bytewise form of a buffer is the advance of the whole buffer mixed in at once |
| `Crc32c.TableRecurrence` | src/crc32.c:527-577 | each table is the one-byte advance of the one before |
| `Crc32c.SliceStepIsBytewise` | src/crc32.c:545-568 | eight lookups are eight byte steps |
| `Crc32c.SlicingBy8` | src/crc32.c:527-577 | the sliced form equals the bytewise form for every running value, buffer and alignment |
| `Crc32c.AlignedEndInsideIff` | src/crc32.c:534-545 | the aligned loop stays inside the buffer iff the bytes up to alignment do |
| `Crc32c.BurstDetected` | src/database.c:178-186 | damage within four consecutive bytes always changes the checksum |
| `DatabaseFormat.ReadSerialized` | src/database.c:130-174 | reading the serialized form gives back every field and the bytecode |
| `DatabaseFormat.SerializedLayout` | src/database.c:62-110 | the place of every field, low byte first, and of the bytecode |
| `DatabaseFormat.PlatformBits` | src/database.c:115-127 | the accepted platform words, by their bits: those the processor lacks, alone or with one of three fallback sets |
| `DatabaseFormat.RoundTrip` | src/database.c:115-127 | a sound database reads back iff its platform is accepted |
| `DatabaseFormat.WriteRead` | src/database.c:62-110 | what was read serializes to the same bytes up to the padding |
| `DatabaseFormat.DamageRefused` | src/database.c:178-186 | damage to at most four consecutive bytecode bytes is always refused |
| `Database.Block.Create` | src/compiler/compiler.cpp:476-508 | a new database is sound, its bytecode on a cache line |
| `Database.Block.CopyBytecode` | src/database.c:189-197 | bytecode lands on the last cache line that starts within the structure or at its end, inside the block, clear of the header fields |
| `Database.Block.Checksum` | src/database.c:178-186 | the sliced checksum of the bytecode is its bytewise one |
| `Database.Block.Serialize` | src/database.c:62-110 | the serialized form of the fields and bytecode, or the first failing check |
| `Database.DecodeHeader` | src/database.c:130-174 | accepts exactly the headers with the right magic, version and length, in that order of errors |
| `Database.Block.DeserializeAt` | src/database.c:200-240 | success iff every check passes; whenever a check before loading fails the block is left alone, and else it holds the fields and bytecode read |
| `Database.Relocate` | src/database.c:62-240 | serialize, deserialize into any other aligned block, serialize: succeeds iff the platform is accepted, same fields, bytecode and bytes |

## Left out

- Rose, HWLM and NFA engines: the stream model takes them as functions that append callbacks, keep a request to stop on record and a broken stream broken, and make no callback after a request to stop.
- FDR confirm and flood detection, and running the scan over the boundary zones: the scan is stated over one buffer.
- Start-of-match storage in streams (`loadSomFromStream`, `storeSomToStream`): part of the abstract engine state.
- Null pointers, database mode checks and allocation failure of the stream and database calls: one-branch argument checks.
- Filling of the matcher's graph cache: its tables are modelled as the functions they tabulate.
- Iterating a multibit (`mmbit_iterate`, sparse iterators): modelled as visiting the keys that are on in ascending order.
- Fatbits, exhaustion vectors and dedupe logs: modelled as finite sets.
- The floating-point scorer of bucket costs: any exact, non-negative score monotone in the number of literals, with a top element.
- `std::stable_sort` is modelled by an insertion sort with the same result.
- The 2048 literal CRC table entries and the SSE4.2 path: tables are defined by the polynomial.
- Crc32c.SlicingBy8: requires at least the bytes up to four-byte alignment, because the subtraction of a shorter length wraps around (`Crc32c.AlignedEndInsideIff`); the database calls it on cache-line aligned bytecode.
- Squash masks, graph pruning and renumbering, and reports made by `checkForMultilineStart`: they rest on code outside the modelled files.
- AssertPass.RunPass: that no succession is added is stated for compatible masks only, which all masks of the parser are (`AssertElimination.ParsedExact`); `AssertFlags.StoredMaskExactIff` says exactly when one stored mask is right.
- NfaMatcher.FindMatches: for graphs with edge assertions or UTF-8 at a positive distance, which the compiler refuses (src/nfagraph/ng_fuzzy.cpp:661-682), only runs and the soundness of alignments are stated.
- StreamCompression.ExpandStream: speaks of buffers that begin with a compressed form, or with as many bytes of one as the stated size; buffers with other contents are not described, nor are writes outside the stream that a pyramid read from such bytes would make.
- StreamSessions.Drive: offsets are unbounded numbers, the 64-bit wrap-around of a stream offset is not modelled.
- ScratchLayout.Layout: sizes are unbounded numbers, wrap-around of size arithmetic is not modelled.
- In-place memory of compressed streams and multibits is a sequence that each step replaces; aliasing of buffer and stream is not modelled.
- Chimera, block-mode callback ordering, dispatching, options, allocators and dumps.
