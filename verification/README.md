# Marrow: verified models of the compiler analyses and the pending journal

This project models four parts of Marrow in Dafny and proves what they are for.

**Call graph and transaction ownership.** The iterative Tarjan search over the call relation,
the availability sweep and one-pass propagation, the worklist walk that decides whether an
export's `transaction` region is well formed, the passes built on them, and runs of an export
through its whole call tree. `Paths`, `Tarjan`, `CallGraph`, `Tape`, `Ownership`,
`OwnershipLaws`, `Execution`.

**The pending journal.** The byte-exact frame and its one decoder, and the protocol of claim,
link, sync, unlink, append, finish, adopt, truncate and resume over a directory that may crash
at any point. Any subset of the unsynced name changes and any prefix of the unsynced bytes may
survive; any operation may be refused before or after taking effect. `Frame`, `FrameLaws`,
`FrameAnswers`, `Custody`, `AdmittedDirectory`, `Markers`, `Journal`, `Recovery`.

**Bounded owners and declaration ledgers.** The two-ceiling accumulator, the diagnostic
collector and the two stage joins; the declaration ledger as an index over an occurrence log,
several ledgers sharing one byte budget. `Bounded`, `Diagnostics`, `Stages`, `Declarations`,
`DeclarationOracle`, `DeclarationRuns`, `DeclarationLedger`.

**Durable graph construction.** The memoized, cycle-cutting walk over value types against their
naive expansion, with the arena that shares equal shapes; and the projection from traversal order
to wire order. `ValueShapes`, `ValueContainment`, `ValueWalk`, `WireOrder`, `WireCommands`.

The results to read first: `CallGraph.Analyze`, `Tape.OwnerLatticeViolation`,
`OwnershipLaws.CleanIff`, `Execution.ValidateLowered`, `FrameAnswers.DecodesIff` with
`FrameLaws.TornFrame`, `Markers.AdmitMeans`, `Markers.ClaimSafeIffAbsenceCommitted`, `Recovery.ClaimCrashRecover`, `Recovery.ClaimAppendCrashRecover`,
`Recovery.FinishCrashFinish`, `Recovery.Lifetime` with `Recovery.RetainedRecovers`,
`Bounded.RunExact`, `Stages.VerdictMeans` with `Stages.JoinsAgree`, `DeclarationLedger.PassConserves` with
`DeclarationLedger.PassReads`, `ValueWalk.IdentityResolver.BuildFieldValue` with
`ValueContainment.AcyclicIffExpandable`, and `WireCommands.DeclarationCommands` with
`WireCommands.WalkMeans`.

`dafny verify dfyconfig.toml` verifies the whole project.

## How it is modelled

- A crash is a relation on directory values (`Custody.CrashImage`). `survivors` holds every set
  of names a crash may leave, `disk` every content of a file. `AdmittedDir` records each state it
  passes through in `trace`, so a claim about `trace` is a claim about a crash at any point.
- A fault plan (`AdmittedDir.faults`) refuses any operation at will, before or after its effect,
  and cuts appends short. A directory is quiet when no more faults come; liveness (the operation
  succeeds) is stated for quiet directories.
- The facts of lowering the ownership passes rest on are the precondition `Execution.Lowered`:
  every call target is recorded, what runs outside every block is listed, no body calls a test, and
  blocks nest on the tape, stated step by step: it starts outside, commits lie inside, and no
  single step goes deeper but through a begin (`crates/marrow-compile/src/compile.rs:2707-2712`,
  `crates/marrow-compile/src/lower/stmts.rs:208-225`, `crates/marrow-compile/src/lower/mod.rs:978-983`).
- Instructions are reduced to what the analyses read: successors, begin, commit, return, call,
  durable operation, mutation.
- The size of a refusal summary, which the budget charges per refusal, is a fixed positive number.
- The ordered map behind a ledger is a map together with its keys in order.
- A declared type that contains itself is found by the walk as a cycle; whether it is one is
  stated over containment walks of the declared types.

Two properties that might be expected of the code do not hold. A claim checks that both marker
names are absent, but not that their absence is committed. If an earlier removal is still
unsynced, a crash during the claim can bring the old marker back beside the new one.
`Markers.StaleClaimResurrects` gives such a directory, `Journal.RefusedFinishResurrects` shows that
a finish with a refused sync leaves one, `Markers.ClaimSafeIffAbsenceCommitted` gives the exact
condition, and `Journal.SyncCommitsAbsence` how to meet it. Likewise a journal reopened over an
append whose sync was refused resumes with a record the next crash may drop:
`Recovery.ResumedMayBeLost` gives the input, and `Recovery.RecoverAppend` when the record is safe.

## Model

| member | source | states |
|---|---|---|
| `Tarjan.StartInv` | crates/marrow-compile/src/call_graph.rs:103-117 | the search starts in a state that satisfies the whole Tarjan invariant, for every graph |
| `Tarjan.DiscoverInv` | crates/marrow-compile/src/call_graph.rs:122-127 | entering an unvisited vertex, as a root or through the edge just read, keeps the invariant: stack indexes ascend, low links are real back edges, every stacked vertex reaches an active frame and is reached from it |
| `Tarjan.ReadInv` | crates/marrow-compile/src/call_graph.rs:130-152 | reading one edge keeps the invariant; the edge counts as read exactly once and a self edge marks its vertex |
| `Tarjan.LeaveInv` | crates/marrow-compile/src/call_graph.rs:154-175 | leaving an exhausted vertex that is no component root folds its low link into its parent and keeps the invariant |
| `Tarjan.ComponentMutual` | crates/marrow-compile/src/call_graph.rs:155-163 | when a root is left, everything at or above it on the stack reaches the root and is reached from it |
| `Tarjan.CollapseInv` | crates/marrow-compile/src/call_graph.rs:154-171 | emitting a finished component keeps the invariant: it is closed together with what was emitted, its members are marked on a cycle exactly when they are, and callees stay before callers |
| `CallGraph.PopThrough` | crates/marrow-compile/src/call_graph.rs:156-163 | the inner pop loop removes exactly the stack from the root up, clears exactly those membership bits and appends those vertices once each |
| `CallGraph.PopComponent` | crates/marrow-compile/src/call_graph.rs:154-171 | popping and marking a component produces exactly the collapsed state the invariant lemmas speak of |
| `CallGraph.MarkAll` | crates/marrow-compile/src/call_graph.rs:165-170 | the marking loop sets exactly the members and clears nothing |
| `CallGraph.ReadStep` | crates/marrow-compile/src/call_graph.rs:130-152 | one turn with an edge left: out-of-domain edges are skipped, new vertices entered, stacked ones lower the low link |
| `CallGraph.LeaveStep` | crates/marrow-compile/src/call_graph.rs:154-175 | one turn without edges left: collapse at a root, otherwise fold into the parent |
| `CallGraph.Turn` | crates/marrow-compile/src/call_graph.rs:129-176 | every turn of the frame loop keeps the search invariant and strictly lowers (unvisited vertices, frames, unread edges) |
| `CallGraph.Explore` | crates/marrow-compile/src/call_graph.rs:122-176 | one root is searched to the end: the loop terminates, the frame stack is empty again and the root is visited |
| `CallGraph.AvailableStep` | crates/marrow-compile/src/call_graph.rs:179-200 | a function is available exactly when it has a body, is off every cycle and all its callees are in domain and available |
| `CallGraph.AvailableGreatest` | crates/marrow-compile/src/call_graph.rs:179-200 | availability is the greatest such property: any closed set of sound functions lies inside it |
| `CallGraph.SettleEligibility` | crates/marrow-compile/src/call_graph.rs:183-200 | the one callee-first sweep marks exactly the functions from which everything reachable is in domain, present and acyclic |
| `CallGraph.RetainedOrder` | crates/marrow-compile/src/call_graph.rs:200 | what is retained keeps each function once and every callee before its callers |
| `CallGraph.Analyze` | crates/marrow-compile/src/call_graph.rs:102-207 | for every call relation, holes and dangling edges included: it terminates, discovers each vertex once, reads each edge once, reports `on_cycle` exactly for vertices that reach themselves, and returns the callee-first order of exactly the available functions |
| `CallGraph.Propagate` | crates/marrow-compile/src/call_graph.rs:77-93 | in one pass, for any successor relation the order is callee-first for, a function is true exactly when it is in the order and reaches a base function by zero or more steps |
| `CallGraph.SubrelationOrder` | crates/marrow-compile/src/call_graph.rs:66-93 | every relation inside the analysed calls inherits the callee-first order, so `Propagate` applies to it |
| `CallGraph.CompleteOrder` | crates/marrow-compile/src/call_graph.rs:51-68 | the order is complete exactly when every function is available |
| `CallGraph.BodiesMeans` | crates/marrow-compile/src/call_graph.rs:129-140 | a call edge exists exactly when the caller has a body that lists the callee and the callee is in domain |
| `Tape.Disagreement` | crates/marrow-compile/src/compile.rs:2473-2487 | two meeting states form a violation exactly when their phases differ |
| `Tape.OfferOne` | crates/marrow-compile/src/compile.rs:2744-2760 | handing a state to one successor keeps the walk invariant: every recorded entry state has a real path, every recorded shape a real witness, and a conflict it meets is recorded unless an earlier one is |
| `Tape.Offer` | crates/marrow-compile/src/compile.rs:2735-2760 | handing a state to all successors answers the instruction: each successor is labelled with the same phase, or a shape at or before it is recorded |
| `Tape.WalkTape` | crates/marrow-compile/src/compile.rs:2723-2760 | the worklist terminates with every reached instruction labelled by a state some path enters it in; every conflict between labels, and every begin entered late, has a recorded shape at or before it, a meeting conflict standing before a reopening at the same instruction |
| `Tape.WalkCovers` | crates/marrow-compile/src/compile.rs:2723-2760 | without a recorded shape the label of an instruction has the phase of every path that enters it |
| `Tape.BeginOnCycle` | crates/marrow-compile/src/compile.rs:2848-2861 | true exactly when the begin reaches itself along the control flow |
| `Tape.RegionShapeReport` | crates/marrow-compile/src/compile.rs:2803-2843 | the exact code and position of each shape: reopened at a begin entered late, uncommitted or conditional at the begin of the block, reopened when that begin lies on a cycle; each has a real path witness |
| `Tape.ViolationRefutes` | crates/marrow-compile/src/compile.rs:2687-2712 | a reported violation of any kind means the region is not well formed over all paths |
| `Tape.OwnerLatticeViolation` | crates/marrow-compile/src/compile.rs:2713-2799 | `None` exactly when, over all control-flow paths from instruction 0, meeting paths agree on the phase, no begin follows a begin, no return lies inside the region, and after the commit there is neither a durable operation nor a call of a function marked durable; a reported violation has a path witness, and when meeting paths agree and begins are single it is at the first instruction that breaks a law |
| `Tape.FlowMeans` | crates/marrow-image/src/instr.rs:803-850 | control passes from one instruction to another exactly through a jump or branch target, or by falling through what is neither a jump nor an end |
| `Tape.StateMeans` | crates/marrow-compile/src/compile.rs:2735-2743 | the lattice state of a path by the instructions it ran: before any begin, inside since its first begin, or past a commit after it |
| `Ownership.RejectRecursion` | crates/marrow-compile/src/compile.rs:2325-2352 | reports exactly the present bodies on a call cycle, in index order, and hands on the analysed order |
| `Ownership.SettleRequires` | crates/marrow-compile/src/compile.rs:2377-2395 | the settled mask holds exactly for available functions with an unwrapped call chain that ends in an unwrapped mutation |
| `Ownership.ReportMutations` | crates/marrow-compile/src/compile.rs:2406-2423 | one row per distinct position of an export's unwrapped mutations, none for a test |
| `Ownership.ReportMissing` | crates/marrow-compile/src/compile.rs:2402-2452 | the rows of one export or test are real, one per position, and no offending position is forgotten |
| `Ownership.RejectMissingTransaction` | crates/marrow-compile/src/compile.rs:2369-2455 | rows come function by function; a function is marked reported exactly when it is available and misses a transaction |
| `Ownership.MissingMeans` | crates/marrow-compile/src/compile.rs:2356-2368 | an export misses a transaction exactly when a chain of unwrapped calls, possibly empty, ends in an unwrapped mutation; a test exactly when such a chain starts with a call; a helper never |
| `OwnershipLaws.CallEdge` | crates/marrow-compile/src/compile.rs:2325-2352 | the calls analysed are exactly the recorded callees of present bodies |
| `OwnershipLaws.UnwrappedEdge` | crates/marrow-compile/src/compile.rs:2377-2395 | the unwrapped calls followed are exactly the recorded ones |
| `OwnershipLaws.ClosuresMean` | crates/marrow-compile/src/compile.rs:2377-2395 | mutating, performing durable work and requiring a transaction are each exactly: some body reached by calls holds a mutation, holds a durable operation, or lists an unwrapped mutation reached by unwrapped calls |
| `OwnershipLaws.MissingIff` | crates/marrow-compile/src/compile.rs:2402-2452 | an export misses a transaction exactly when unwrapped calls lead to a body with a listed unwrapped mutation, a test when one of its own unwrapped calls does |
| `Ownership.FindMarker` | crates/marrow-compile/src/compile.rs:2678-2685 | the first `transaction` marker of a tape that holds one |
| `Ownership.ReportOwnerCalls` | crates/marrow-compile/src/compile.rs:2583-2617 | exactly the call sites of transaction owners, in tape order |
| `Ownership.ReportOwnership` | crates/marrow-compile/src/compile.rs:2576-2675 | the rows of one body are real, there are none exactly when the body satisfies every ownership law, every call of an owner is reported, and otherwise there is at most one row, the empty-region one when an export begins without durable work |
| `Ownership.RejectTransactionOwnership` | crates/marrow-compile/src/compile.rs:2519-2676 | every available body without a missing-transaction report is held to the ownership laws, with durability read through the whole call tree; the others draw nothing |
| `OwnershipLaws.RegionMeans` | crates/marrow-compile/src/compile.rs:2713-2799 | a region passes the lattice exactly when the path laws hold with durability read from the program: a durable instruction, or a call of an available function that reaches one by calls |
| `OwnershipLaws.CleanIff` | crates/marrow-compile/src/compile.rs:2519-2676 | a body is clean exactly when it calls no owner (unless a test), begins a region only over reachable durable work, obeys the region laws if it owns one, and holds no marker if it does not |
| `OwnershipLaws.RowHolds` | crates/marrow-compile/src/compile.rs:2576-2675 | what each reported row says of the program, in terms of its instructions, calls and paths |
| `Execution.PathDepth` | crates/marrow-compile/src/compile.rs:2707-2712 | when every begin is reached before any begin, a path is never deeper in blocks than its lattice state says: blocks nest step by step on the tape, so this holds of every path |
| `Execution.BlockIsOpen` | crates/marrow-compile/src/compile.rs:2694-2712 | hence an instruction inside a block is entered only with the region open |
| `Execution.MutationOpen` | crates/marrow-compile/src/compile.rs:2694-2712 | in a tracked run of an accepted program a durable mutation in any frame happens with the export's region begun |
| `Execution.CallIsDurable` | crates/marrow-compile/src/compile.rs:2545-2574 | if a frame above the export's performs something durable, the export's suspended call counts as durable in the mask |
| `Execution.TrackedSafe` | crates/marrow-compile/src/compile.rs:2687-2799 | a tracked configuration may run its next instruction: begin only in the export's frame and only once, commit only there and only with the region open, no return with the region open, nothing durable after the commit, mutations only inside |
| `Execution.StepTracked` | crates/marrow-compile/src/compile.rs:2713-2760 | every step of every run (moves, calls, returns) keeps the run tracked by the lattice state of the export's own frame |
| `Execution.RunsAreSafe` | crates/marrow-compile/src/compile.rs:2519-2799 | safety of every configuration of every run of an export through its whole call tree, for an accepted program |
| `Execution.SilentAccepts` | crates/marrow-compile/src/compile.rs:1654-1698 | a complete program on which the three passes stay silent is accepted |
| `Execution.ValidateLowered` | crates/marrow-compile/src/compile.rs:1654-1698 | the three passes report nothing and the order is complete exactly when the program obeys every law; then every run of every export is safe |
| `Frame.GetPut` | crates/marrow-fs-journal/src/frame.rs:357-397 | a length or sequence word reads back as written |
| `Frame.PutGet` | crates/marrow-fs-journal/src/frame.rs:407-446 | the word read is the only one with those bytes |
| `Frame.DecodeLoop` | crates/marrow-fs-journal/src/frame.rs:529-567 | the record loop agrees with the recursive definition of a record run, error and tail included |
| `Frame.DecodeFrame` | crates/marrow-fs-journal/src/frame.rs:525-568 | the decoder computes `Decode` on every byte string |
| `FrameLaws.VisiblePrefix` | crates/marrow-fs-journal/src/frame.rs:461-509 | every prefix of a lawful next record is accepted as far as it goes: incomplete when cut, complete at its exact length, and then it reads back as the record |
| `FrameLaws.VisibleSound` | crates/marrow-fs-journal/src/frame.rs:461-519 | a record accepted as complete is lawful and its bytes are exactly its encoding |
| `FrameLaws.IncompleteIsTorn` | crates/marrow-fs-journal/src/frame.rs:461-509 | bytes accepted as incomplete show the visible fields of some record that is lawful next and longer than they are |
| `FrameLaws.TornIsIncomplete` | crates/marrow-fs-journal/src/frame.rs:461-509 | and every such run of bytes is accepted as incomplete, so an error arm answers exactly the others |
| `FrameLaws.TornFrame` | crates/marrow-fs-journal/src/frame.rs:461-568 | every prefix of a lawful frame that includes its header decodes to the maximal run of complete records plus exactly the leftover bytes |
| `FrameLaws.WholeIsMaximal` | crates/marrow-fs-journal/src/frame.rs:525-568 | the kept records fit and one more would not |
| `FrameLaws.DecodeEncoded` | crates/marrow-fs-journal/src/frame.rs:357-397 | every lawful header and record list decodes back to itself with a clean tail |
| `FrameLaws.EncodeDecoded` | crates/marrow-fs-journal/src/frame.rs:407-568 | every byte string that decodes re-encodes, with its tail bytes, to exactly itself; what it decodes to is lawful, and its tail is shorter than four bytes or begins a lawful next record longer than it |
| `FrameLaws.LawfulEncodes` | crates/marrow-fs-journal/src/frame.rs:379-397 | the encoder accepts every record of a lawful frame and writes the bytes the laws speak of |
| `FrameLaws.TotalLenIsLessTail` | crates/marrow-fs-journal/src/journal.rs:980-988 | `frame_total_len` is the input length minus the tail length |
| `FrameLaws.TruncatedDecodes` | crates/marrow-fs-journal/src/journal.rs:327-374 | cutting a frame at `frame_total_len` leaves the same records with a clean tail |
| `FrameLaws.AppendTorn` | crates/marrow-fs-journal/src/journal.rs:444-479 | appending any prefix of the legal next record to a clean frame reads as the old frame with that tail, or as the frame with the record when whole |
| `FrameLaws.ExtendedDecodes` | crates/marrow-fs-journal/src/frame.rs:525-568 | bytes that go on behind a clean frame and decode have its header and begin with all its records; behind a terminal record nothing goes on |
| `FrameAnswers.DecodesIff` | crates/marrow-fs-journal/src/frame.rs:407-568 | a byte string decodes to a frame exactly when it is that frame's header, records and tail, each lawful where it stands |
| `FrameAnswers.CorruptionHolds` | crates/marrow-fs-journal/src/frame.rs:407-568 | every refusal tells the truth about the bytes: what is too long, misplaced, out of the registry or damaged, and where |
| `FrameAnswers.HeaderEncodes` | crates/marrow-fs-journal/src/frame.rs:357-374 | which headers encode, with which error otherwise, and the bytes by position |
| `FrameAnswers.RecordEncodes` | crates/marrow-fs-journal/src/frame.rs:380-397 | which records encode, with which error otherwise, and the bytes in order |
| `FrameAnswers.WordBytes` | crates/marrow-fs-journal/src/frame.rs:368-394 | a word is its four bytes, most significant first |
| `FrameAnswers.FrozenBytes` | crates/marrow-fs-journal/src/frame_tests.rs:140-144 | the frozen bytes of a sample record and of the empty header |
| `Custody.AppendOutcomes` | crates/marrow-fs-journal/src/custody.rs:660-676 | a crash leaves an earlier content or the cached one with a prefix of the appended bytes |
| `Custody.SurvivingIsSubsets` | crates/marrow-fs-journal/src/custody.rs:479-497 | the entries a crash may leave are exactly those some subset of the unsynced name changes leaves |
| `Custody.MutationsSurvive` | crates/marrow-fs-journal/src/custody.rs:385-497 | create, link and unlink each add exactly their own subset outcomes |
| `AdmittedDirectory.AdmittedDir.Reassert` | crates/marrow-fs-journal/src/custody.rs:431-441 | success means the name maps to the witnessed inode; a true mapping is refused only by the platform, and a false one is identity drift |
| `AdmittedDirectory.AdmittedDir.CreateFileExcl` | crates/marrow-fs-journal/src/custody.rs:385-392 | on success the name is the new inode; a taken name is refused as existing and changes nothing; any other refusal leaves the directory as before or as after |
| `AdmittedDirectory.AdmittedDir.LinkEntry` | crates/marrow-fs-journal/src/custody.rs:479-481 | the link is made; a missing source and a taken target are refused as such without effect; any other refusal leaves it made or not made |
| `AdmittedDirectory.AdmittedDir.UnlinkEntry` | crates/marrow-fs-journal/src/custody.rs:484-486 | the name is removed; a missing name is refused as not found; any other refusal leaves it removed or not removed |
| `AdmittedDirectory.AdmittedDir.Sync` | crates/marrow-fs-journal/src/custody.rs:495-497 | success commits every name change so far |
| `AdmittedDirectory.AdmittedDir.AppendFile` | crates/marrow-fs-journal/src/custody.rs:660-662 | success appends all bytes; a refusal may leave any prefix |
| `AdmittedDirectory.AdmittedDir.SyncOpen` | crates/marrow-fs-journal/src/custody.rs:670-672 | success commits the file's content |
| `AdmittedDirectory.AdmittedDir.TruncateFile` | crates/marrow-fs-journal/src/custody.rs:674-676 | success cuts the file; a refusal may or may not have |
| `Markers.SafeAdmits` | crates/marrow-fs-journal/src/journal.rs:793-921 | in a directory whose marker names are one journal inode, the pair reads as Absent, Preclaim, Claimed or Pending according to which names are present, with the decoded frame |
| `Markers.AdmitMeans` | crates/marrow-fs-journal/src/journal.rs:793-921 | exactly when the pair reads as Absent (neither name), Preclaim (the claim name alone, a regular file with one link), Claimed (both names one two-link 0600 file of a lone Prepared record) or Pending (the pending name alone, one link, 0600, at least a record); everything else reads as corrupt, for a reason that holds |
| `Markers.SafeIsCrashSafe` | crates/marrow-fs-journal/src/journal.rs:802-921 | the invariant makes every crash image admissible and never corrupt; a two-link journal holds exactly its Prepared record |
| `Markers.CrashKeepsSafe` | crates/marrow-fs-journal/src/journal.rs:828-921 | a crash image satisfies the invariant again |
| `Markers.CreateSafe` | crates/marrow-fs-journal/src/journal.rs:623-660 | creating the claim file over a committed absence establishes the invariant |
| `Markers.LinkSafe` | crates/marrow-fs-journal/src/journal.rs:669-708 | linking the pending name keeps it when every content a crash may leave is exactly the Prepared record |
| `Markers.UnlinkSafe` | crates/marrow-fs-journal/src/journal.rs:484-518 | unlinking a marker keeps it |
| `Markers.ClaimNotSafe` | crates/marrow-fs-journal/src/journal.rs:623-660 | claiming while an earlier removal is still unsynced can crash into a split, corrupt pair |
| `Markers.StaleClaimResurrects` | crates/marrow-fs-journal/src/journal.rs:623-660 | a concrete directory that reads Absent and over which a claim can crash into corruption |
| `Markers.ClaimSafe` | crates/marrow-fs-journal/src/journal.rs:586-708 | over a committed absence every step of a claim is crash safe |
| `Markers.ClaimSafeIffAbsenceCommitted` | crates/marrow-fs-journal/src/journal.rs:586-708 | every step of an unrefused claim is crash safe exactly when no crash can bring a marker back at entry |
| `Journal.ClaimBytes` | crates/marrow-fs-journal/src/journal.rs:970-977 | claim bytes that are produced fit the ceiling |
| `Journal.ClaimBytesPrepared` | crates/marrow-fs-journal/src/journal.rs:970-977 | claim bytes decode to the given header and one Prepared record with a clean tail |
| `Journal.ClaimBytesIff` | crates/marrow-fs-journal/src/journal.rs:970-977 | claim bytes exist exactly when header and payload together fit the ceiling, and which refusal is given otherwise |
| `Journal.ComposedLayout` | crates/marrow-fs-journal/src/frame.rs:80-101 | a composed header holds the generation, the parent's and the journal's device and inode numbers and the tail at their frozen positions, and its common decodes back to them |
| `Journal.U64Bytes` | crates/marrow-fs-journal/src/custody.rs:53-58 | an identity number is its eight bytes, most significant first |
| `Journal.IdentityRoundTrip` | crates/marrow-fs-journal/src/custody.rs:53-71 | device first, then inode, each in eight bytes, and reading back returns the identity |
| `Journal.Recheck` | crates/marrow-fs-journal/src/journal.rs:1015-1049 | success witnesses mapping, kind, mode, link count and exact length; on a quiet directory it refuses nothing that holds; a corruption it reports names how the file really differs |
| `Journal.DiscardWitnessed` | crates/marrow-fs-journal/src/journal.rs:1057-1066 | the cleanup removes at most the claim name of the witnessed inode and stays crash safe throughout |
| `Journal.WriteClaimFile` | crates/marrow-fs-journal/src/journal.rs:944-966 | success leaves exactly the claim bytes, synced, under the one claim name; every state on the way is crash safe |
| `Journal.ClaimPreflight` | crates/marrow-fs-journal/src/journal.rs:623-660 | over any directory: a visible marker is refused untouched, any other refusal leaves no pending name, and success has the synced, checked claim file; over a committed absence every state is crash safe and a refusal leaves no pending name under any crash |
| `Journal.CommitStates` | crates/marrow-fs-journal/src/journal.rs:669-708 | from the first sync on every state of the commit is crash safe whatever the directory could lose before, and it ends in one committed pending name; only the unsynced link needs the absence committed |
| `Journal.LinkPending` | crates/marrow-fs-journal/src/journal.rs:669-693 | the first half of the commit: the pending name is linked and synced, and both names are seen on the one file |
| `Journal.ClaimCommit` | crates/marrow-fs-journal/src/journal.rs:669-708 | every state is the claim's own untouched file, and over a committed absence the journal's own directory; success commits the pending name alone, checked; a quiet directory always succeeds |
| `Journal.SyncCommitsAbsence` | crates/marrow-fs-journal/src/journal.rs:586-607 | a directory sync commits an absence exactly when neither name is visible, which is how a caller meets the condition of a crash-safe claim |
| `Journal.RefusedFinishResurrects` | crates/marrow-fs-journal/src/journal.rs:484-518 | any journal whose finish unlinked its name and had its last sync refused reads Absent, and the next claim can crash into a corrupt pair unless the directory is synced first |
| `Journal.Claim` | crates/marrow-fs-journal/src/journal.rs:586-607 | over any directory: success is a live journal at sequence 1 and tag 1 under its one committed, checked pending name, whose file is exactly the synced claim bytes; a refusal before the link leaves no pending name, a later one the claim's own file with its bytes under names that are its own; every state is in the trace; over a committed absence every state is crash safe, the end is the journal's own directory, and a refusal before the link leaves no pending name under any crash; on a quiet directory a visible marker is refused as existing, and bytes over the law with their own refusal |
| `Journal.AppendReplays` | crates/marrow-fs-journal/src/journal.rs:444-479 | any prefix of the legal next record keeps the frame replayable, and the whole record advances sequence and tag |
| `Journal.AppendLive` | crates/marrow-fs-journal/src/journal.rs:444-479 | a torn append keeps the journal live and loses no durable content |
| `Journal.AppendRetains` | crates/marrow-fs-journal/src/journal.rs:444-479 | every state of an append retains, under every crash, the pending name and all bytes retained before it |
| `Journal.LiveJournal.WriteRecord` | crates/marrow-fs-journal/src/journal.rs:459-474 | write, sync and recheck one legal record: every state crash safe, durable content kept, success has the record durable |
| `Journal.LiveJournal.Append` | crates/marrow-fs-journal/src/journal.rs:444-479 | an acknowledged record is durable and extends the content by exactly its encoding; after the terminal phase, without advance, outside the law or over the ceiling it is refused with that reason, untouched; a refused append changes no field; every state is crash safe and retains the name and all acknowledged bytes under every crash |
| `Journal.FinishStates` | crates/marrow-fs-journal/src/journal.rs:484-518 | removing the pending name of a live journal is crash safe before and after its sync, which alone commits the absence |
| `Journal.LiveJournal.RemoveName` | crates/marrow-fs-journal/src/journal.rs:490-518 | recheck, unlink, see nothing left and sync: every state keeps the file and the invariant, success commits the absence |
| `Journal.LiveJournal.Finish` | crates/marrow-fs-journal/src/journal.rs:484-518 | refused before a terminal record; every state is the journal's own directory with its file untouched, crash safe; success commits the absence of both names |
| `Journal.AdoptStates` | crates/marrow-fs-journal/src/journal.rs:267-305 | from its first sync on every state of an adoption is the journal's own directory, crash safe, with the pending name lost under no crash, whatever the directory could lose before; it ends committed |
| `Journal.ClaimedMeans` | crates/marrow-fs-journal/src/journal.rs:848-889 | a directory that reads as Claimed has both names on one inode and no other, holding exactly a Prepared record |
| `Journal.AdoptChecks` | crates/marrow-fs-journal/src/journal.rs:267-305 | every recheck of an adoption holds of any directory that reads as Claimed |
| `Journal.SyncClaimed` | crates/marrow-fs-journal/src/journal.rs:262-279 | the first half of an adoption: the directory is synced as it was found, and both names are seen on the one file |
| `Journal.Adopt` | crates/marrow-fs-journal/src/journal.rs:267-305 | over any directory that reads as Claimed: no byte changes, success ends under the one committed, checked name at sequence 1, and a quiet directory always succeeds; when every content a crash may leave is the Prepared record, success is a live journal, each state is the start or the journal's own directory that keeps its name, and a crash-safe start stays crash safe |
| `Journal.TruncateStates` | crates/marrow-fs-journal/src/journal.rs:327-374 | truncating to the valid length keeps the records under any crash |
| `Journal.PendingJournal.TruncateTail` | crates/marrow-fs-journal/src/journal.rs:327-374 | only a proper prefix of a given record that is legal next is cut, and an illegal record or a tail that is no prefix is refused as such, untouched; success leaves exactly the complete records, durable, with a clean tail; every state is crash safe |
| `Journal.PendingJournal.Resume` | crates/marrow-fs-journal/src/journal.rs:377-408 | an incomplete tail is refused; otherwise length, next sequence and last tag are those of the decoded, checked file, and a synced file is durable whole |
| `Recovery.SettledReady` | crates/marrow-fs-journal/src/journal.rs:793-921 | whatever a directory with nothing unsynced reads as, short of corruption, it is ready for: a claim satisfies what adoption needs and a pending journal what resuming needs |
| `Recovery.CrashReady` | crates/marrow-fs-journal/src/journal.rs:793-921 | a crash of any crash-safe state, inside a claim, an append, a finish or an adoption, leaves a directory ready for the operation it reads as |
| `Recovery.CrashDispatch` | crates/marrow-fs-journal/src/journal.rs:793-921 | every crash of one journal's own directory reads as the state its names say, of that journal, and is ready for its operation |
| `Recovery.AdoptionRecovers` | crates/marrow-fs-journal/src/journal.rs:267-305 | a crash during an adoption leaves a claim to adopt again or the pending journal it becomes, ready, with bytes a crash could leave before |
| `Recovery.ReadyForAppend` | crates/marrow-fs-journal/src/journal.rs:444-479 | a synced live journal is in the state recovery speaks of, for every legal next record |
| `Recovery.TornContent` | crates/marrow-fs-journal/src/journal.rs:327-374 | what a torn append leaves reads as the acknowledged records and the torn bytes, or as both records |
| `Recovery.AppendKeeps` | crates/marrow-fs-journal/src/journal.rs:444-479 | every state of an append stays recoverable |
| `Recovery.TruncateKeeps` | crates/marrow-fs-journal/src/journal.rs:327-374 | every state of a truncation stays recoverable |
| `Recovery.CrashKeeps` | crates/marrow-fs-journal/src/journal.rs:310-408 | a crash of a recoverable state is recoverable |
| `Recovery.AppendCrashRecovers` | crates/marrow-fs-journal/src/journal.rs:444-479 | a crash at any state of an append of a synced journal is one recovery can start from, with the file synced |
| `Recovery.ResumedMayBeLost` | crates/marrow-fs-journal/src/journal.rs:377-408 | a record whose append landed and whose sync was refused is whole and resumed on reopening, yet the next crash may drop it |
| `Recovery.InterruptedAdmits` | crates/marrow-fs-journal/src/journal.rs:891-921 | a recoverable directory reads as Pending with the acknowledged records and what is left of the one in flight |
| `Recovery.SettleTail` | crates/marrow-fs-journal/src/journal.rs:327-374 | the tail is settled to clean, leaving a whole record alone and cutting a torn one to the content; every state on the way is recoverable and crash safe |
| `Recovery.WholeIsDurable` | crates/marrow-fs-journal/src/journal.rs:377-408 | a record whole in the file is durable exactly when the file is synced |
| `Recovery.RecoverAppend` | crates/marrow-fs-journal/src/journal.rs:327-479 | truncate, resume and append again restores a live journal holding the acknowledged content and the record; the record is then durable exactly when it was not already whole in the file or the file was synced, as after a crash; every state passed is recoverable again; a quiet directory always succeeds |
| `Recovery.ClaimAppendCrashRecover` | crates/marrow-fs-journal/src/journal.rs:327-607 | claim, append over any refusals, crash in any way, recover: a successful recovery holds the claim and the record and retains both under the next crash; without further refusals it always succeeds |
| `Recovery.Reopen` | crates/marrow-fs-journal/src/journal.rs:267-408 | what a crash left is taken up: a claim is adopted, a clean pending journal resumed, with exactly its bytes, records and last tag, kept by the next crash; without refusals only a torn tail stands in the way |
| `Recovery.ClaimCrash` | crates/marrow-fs-journal/src/journal.rs:586-708 | a crash of a claim over a committed absence reads as nothing linked, or as this claim's journal with exactly its bytes, and is ready |
| `Recovery.ClaimCrashRecover` | crates/marrow-fs-journal/src/journal.rs:267-708 | every crash of every state of a claim over a committed absence is ready for its operation; claim over any refusals, crash, reopen: a claim or journal found is this one's, and taking it up gives the claim's bytes, kept by the next crash, always without refusals |
| `Recovery.FinishCrash` | crates/marrow-fs-journal/src/journal.rs:484-518 | a crash of any state of a finish of a durable journal leaves nothing, or the whole journal ready to resume |
| `Recovery.FinishCrashFinish` | crates/marrow-fs-journal/src/journal.rs:484-518 | finish over any refusals, crash, and finish what is left: every crash of every state is ready, a finished journal stays absent, and without refusals the absence is committed in the end |
| `Recovery.RetainedRecovers` | crates/marrow-fs-journal/src/journal.rs:793-921 | a crash of a directory that retains a content reads as Pending with the same header and at least its records, in order, and retains it again |
| `Recovery.AppendNext` | crates/marrow-fs-journal/src/journal.rs:444-479 | one append: an acknowledgement is dated to the state it was made in; a legal step on a quiet directory is taken |
| `Recovery.AppendEach` | crates/marrow-fs-journal/src/journal.rs:444-479 | any appends in any order, refused or not: each acknowledgement is dated to a state made since and retained in every state since it was made; legal steps on a quiet directory are all taken |
| `Recovery.Lifetime` | crates/marrow-fs-journal/src/journal.rs:444-607 | claim, any appends in any order and finish: each acknowledgement holds one record more, is dated to a state whose file is exactly what was acknowledged, and is retained, name and bytes, under a crash at any state from that one until finish begins, and its bytes in every later state; over a committed absence every state is crash safe; on a quiet directory legal steps are all acknowledged and the journal is finished exactly when the last is terminal |
| `Bounded.Bounded.Admit` | crates/marrow-compile/src/bounded.rs:115-153 | the owner moves to exactly `Admitted` of its old state |
| `Bounded.Bounded.AbsorbLimited` | crates/marrow-compile/src/bounded.rs:159-174 | the owner ends limited, in exactly `AbsorbedLimited` of its old state |
| `Bounded.AdmittedExact` | crates/marrow-compile/src/bounded.rs:115-153 | one admission over the state of some exact totals gives the state of the summed totals |
| `Bounded.RunExact` | crates/marrow-compile/src/bounded.rs:115-153 | after any sequence of admissions the state depends only on the exact sums: everything retained in order when both fit, otherwise totals cut one past the ceilings and Count exactly when the count sum crossed |
| `Bounded.OrderAndBatching` | crates/marrow-compile/src/bounded.rs:115-183 | two histories with the same sums end in the same state once limited, and always when their rows concatenate alike |
| `Bounded.SealingIsHomomorphism` | crates/marrow-compile/src/diag.rs:975-994 | absorbing a finished terminal, complete or limited, is admitting its original rows |
| `Bounded.SettleExact` | crates/marrow-compile/src/analysis/facts.rs:124-138 | releasing what was staged over a ledger that fits gives the state of the summed totals |
| `Bounded.StagingSettles` | crates/marrow-compile/src/analysis/facts.rs:124-268 | staging over a ledger's totals and settling equals charging the ledger directly, and the staged verdict is the settled one |
| `Bounded.StagedOverLimited` | crates/marrow-compile/src/analysis/facts.rs:255-268 | over a ledger already past a ceiling the staged totals are the saturated sums and any contribution is limited |
| `Diagnostics.DiagnosticCollector.Push` | crates/marrow-compile/src/diag.rs:966-970 | the collector stands for the rows given so far |
| `Diagnostics.DiagnosticCollector.Absorb` | crates/marrow-compile/src/diag.rs:975-994 | absorbing a collector's terminal is being given its rows |
| `Diagnostics.DiagnosticCollector.Finish` | crates/marrow-compile/src/diag.rs:1040-1056 | the terminal is a function of the rows given, however they arrived |
| `Diagnostics.FinishedMeans` | crates/marrow-compile/src/diag.rs:926-956 | complete exactly when at most 4096 rows and 1 MiB were given, then with all rows; otherwise limited by Count exactly when the count crossed |
| `Diagnostics.FinishedIsLawful` | crates/marrow-compile/src/diag.rs:926-947 | every finished terminal is one that can be absorbed, and an empty one stands for no rows |
| `Diagnostics.RowBytesAppend` | crates/marrow-compile/src/diag.rs:806-830 | byte charges add over concatenation |
| `Stages.FindFirst` | crates/marrow-compile/src/compile.rs:2254-2261 | the first non-empty stage terminal, else the empty one |
| `Stages.AbsorbAll` | crates/marrow-compile/src/compile.rs:2262-2268 | the absorbing loop seals the join of all stages in order |
| `Stages.ResolveStages` | crates/marrow-compile/src/compile.rs:2220-2284 | the verdict of either join |
| `Stages.VerdictMeans` | crates/marrow-compile/src/compile.rs:2220-2284 | the verdict from the rows themselves: an invariant wins; the rows a join looks at, all three stages' or the first non-empty stage's, are rejected with if they fit and are the diagnostic limit if not; with none, the program, the semantic limit or the empty-boundary invariant |
| `Stages.UnionReports` | crates/marrow-compile/src/compile.rs:2262-2273 | the union of finished stages is exactly the terminal of one collector given all their rows in order, whether any stage or only the union overran |
| `Stages.UnionKeeps` | crates/marrow-compile/src/compile.rs:2220-2284 | a union that fits keeps every stage complete, and the first stage's rows are a prefix of it |
| `Stages.JoinsAgree` | crates/marrow-compile/src/compile.rs:2220-2284 | First and Union are Checked on the same inputs and Invariant on the same inputs with the same value, a First limit implies a Union limit, Union rows have First's as a non-empty prefix, and the `Stopped` arm is never the answer |
| `Declarations.MergeRetains` | crates/marrow-compile/src/decl.rs:549-590 | merging adds to the retained bytes exactly the gap it adopts |
| `Declarations.DeclaredCoherent` | crates/marrow-compile/src/decl.rs:710-773 | on a coherent ledger `declare` never drifts and leaves a coherent ledger |
| `Declarations.RetainedUpdate` | crates/marrow-compile/src/decl.rs:566-590 | rewriting one occurrence moves the retained total by exactly its difference |
| `Declarations.DeclaredCharges` | crates/marrow-compile/src/decl.rs:710-773 | each recorded declaration charges the budget exactly what it newly retains and never past the ceiling |
| `Declarations.RefusalsBelowWidth` | crates/marrow-compile/src/decl.rs:728-744 | within the budget the truncation of a refusal's position to 32 bits never loses anything |
| `DeclarationOracle.DeclaredMirrors` | crates/marrow-compile/src/decl.rs:710-773 | recording a call keeps the log indistinguishable, for every read, from the list of calls taken |
| `DeclarationOracle.MergeMirrors` | crates/marrow-compile/src/decl.rs:758-773 | folding a repeated refusal in place means the same as having it as a further call |
| `DeclarationOracle.LookupAnswers` | crates/marrow-compile/src/decl.rs:782-795 | a lookup answers the key's first occurrence, a refusal with one summary of all its refusals, an absence only for a key never declared, and never drift |
| `DeclarationOracle.MergedSummarizes` | crates/marrow-compile/src/decl.rs:566-590 | the summary of a key has the name, code and report of its first refusal, the first gap present, and counts every further refusal with those each already counted, saturating at 65535 |
| `DeclarationOracle.RefusedIffOver` | crates/marrow-compile/src/decl.rs:710-773 | a call is refused exactly when what it newly retains, read from the calls taken so far, does not fit the budget, and otherwise charges exactly that |
| `DeclarationRuns.RunIsExact` | crates/marrow-compile/src/decl.rs:854-864 | one seek and one stop read exactly the owner's keys, in key order |
| `DeclarationRuns.SortSorts` | crates/marrow-compile/src/decl.rs:897-904 | sorting by position orders the selected keys strictly and keeps exactly them |
| `DeclarationRuns.AcceptedRunAnswers` | crates/marrow-compile/src/decl.rs:890-912 | the accepted run is the first occurrences that are acceptances of the owner's keys, in source order, with their values; drift is never reported |
| `DeclarationRuns.RefusedRunAnswers` | crates/marrow-compile/src/decl.rs:918-941 | the refused run is the owner's refused keys in the source order of first refusal; drift is never reported |
| `DeclarationRuns.MemberRunIsLawful` | crates/marrow-compile/src/types/mod.rs:1297-1328 | the derived order compares owners first and members within one owner, is total, and makes each owner's members one contiguous run that starts at the least member name |
| `DeclarationLedger.PassConserves` | crates/marrow-compile/src/decl.rs:82-101 | after any interleaving of declarations into any number of ledgers sharing one budget, the charge is exactly what all hold, within the ceiling, and every ledger is coherent |
| `DeclarationLedger.PassAnswers` | crates/marrow-compile/src/decl.rs:710-773 | and every ledger's log answers like the calls it took |
| `DeclarationLedger.TakenIffFits` | crates/marrow-compile/src/decl.rs:710-773 | in any pass a ledger takes a call exactly when what it newly retains still fits the shared budget |
| `DeclarationLedger.PassReads` | crates/marrow-compile/src/decl.rs:782-941 | so every lookup, accepted run and refused run after any script is the oracle's |
| `DeclarationLedger.NoDrift` | crates/marrow-compile/src/decl.rs:758-773 | no `declare` of a sound pass reports drift |
| `DeclarationLedger.DeclarationBudget.ChargeBytes` | crates/marrow-compile/src/decl.rs:92-101 | charges exactly when the total stays within the ceiling, else changes nothing |
| `DeclarationLedger.DeclarationLedger.Declare` | crates/marrow-compile/src/decl.rs:710-750 | keeps the ledger valid; succeeds exactly when what the call newly retains fits the budget; a refused call changes nothing and is never drift; the budget moves by exactly the change in what is retained |
| `DeclarationLedger.DeclarationLedger.MergeRefusal` | crates/marrow-compile/src/decl.rs:758-773 | the repeated refusal is folded in and its adopted gap charged first; a refusal changes nothing |
| `DeclarationLedger.DeclarationLedger.Lookup` | crates/marrow-compile/src/decl.rs:782-795 | answers like the first occurrence among the recorded calls |
| `DeclarationLedger.DeclarationLedger.AcceptedRun` | crates/marrow-compile/src/decl.rs:890-912 | is the oracle's accepted run over the recorded calls |
| `DeclarationLedger.DeclarationLedger.RefusedRun` | crates/marrow-compile/src/decl.rs:918-941 | is the oracle's refused run over the recorded calls |
| `ValueShapes.ExpandsOnce` | crates/marrow-compile/src/durable.rs:1723-1819 | a type has at most one naive expansion |
| `ValueShapes.UnfoldStable` | crates/marrow-image/src/value_dag.rs:456-495 | growing the arena changes the tree of no node |
| `ValueShapes.OneNodePerTree` | crates/marrow-image/src/value_dag.rs:456-495 | interning is canonical: nodes that stand for the same tree are one node |
| `ValueShapes.DepthIsHeight` | crates/marrow-image/src/value_dag.rs:476-522 | the recorded depth is the height of the tree |
| `ValueShapes.InternMeans` | crates/marrow-image/src/value_dag.rs:456-495 | interning moves nothing, answers a node standing for exactly the asked shape, and fails only on a full arena |
| `ValueContainment.ExpandsWalks` | crates/marrow-compile/src/durable.rs:1654-1662 | an expansion of height h admits only durable containment walks of at most h levels that meet no type twice |
| `ValueContainment.WithinLevelsIffExpands` | crates/marrow-compile/src/durable.rs:1821-1849 | a type expands within n levels exactly when every containment walk from it is durable and has at most n levels |
| `ValueContainment.AcyclicIffExpandable` | crates/marrow-compile/src/durable.rs:1654-1662 | a type expands exactly when no containment walk from it leaves the durable types or meets a type twice |
| `ValueWalk.ReachableWalked` | crates/marrow-compile/src/durable.rs:1646-1662 | in a clean state every struct and enum on any containment walk from a remembered type has been walked; with the invariant, exactly once |
| `ValueWalk.NotOnPath` | crates/marrow-compile/src/durable.rs:1744-1751 | a type that expands is never met on its own path, so the cycle cut never refuses it |
| `ValueWalk.MintedMeans` | crates/marrow-compile/src/durable.rs:1921-1932 | a checked mint keeps the walk invariant and answers the shape asked for, or faults on an inadmissible node or a full arena |
| `ValueWalk.TooDeep` | crates/marrow-compile/src/durable.rs:1833-1849 | a shape recorded deeper than 32 levels has a containment walk longer than that |
| `ValueWalk.PoppedInv` | crates/marrow-compile/src/durable.rs:1768-1798 | popping the path and remembering the shape keeps the invariant |
| `ValueWalk.IdentityResolver.CheckedMint` | crates/marrow-compile/src/durable.rs:1921-1932 | one mint through the builder's domain check |
| `ValueWalk.IdentityResolver.Resolve` | crates/marrow-compile/src/durable.rs:1980-2005 | a clean result is the anchor's live id; a missing one is refused by its own anchor, unless something was refused or failed before |
| `ValueWalk.IdentityResolver.BuildValueShape` | crates/marrow-compile/src/durable.rs:1733-1819 | terminates on every type graph; no struct or enum is walked twice; a clean end returns a node that unfolds to the naive expansion with a truthful memo; a type that expands is never refused; what is refused has its culprit on a containment walk from the root |
| `ValueWalk.IdentityResolver.BuildStructValue` | crates/marrow-compile/src/durable.rs:1755-1785 | the same for a struct over its fields in declaration order |
| `ValueWalk.IdentityResolver.BuildEnumValue` | crates/marrow-compile/src/durable.rs:1875-1908 | the same for an enum with its sum and member identities |
| `ValueWalk.IdentityResolver.BuildLeaves` | crates/marrow-compile/src/durable.rs:1769-1776 | the leaves of a clean end are the expansions of the fields under their names, in order |
| `ValueWalk.IdentityResolver.BuildMembers` | crates/marrow-compile/src/durable.rs:1889-1906 | the members of a clean end carry their live ids and expanded payloads, in order |
| `ValueWalk.IdentityResolver.BuildMember` | crates/marrow-compile/src/durable.rs:1889-1906 | one member: its live id and its expanded payload, or the refusal of its own anchor |
| `ValueWalk.IdentityResolver.BuildFieldValue` | crates/marrow-compile/src/durable.rs:1833-1849 | from a clean start, short of a full arena, the end is clean exactly when every containment walk is durable and within 32 levels; then the node unfolds to the expansion and every reachable struct and enum was walked, once; a refusal is true of a walk from the type: it closes a cycle, has over 32 levels, or ends at a struct over 64 fields, a type that cannot be stored or an enum with that identity missing; so is a fault short of a full arena |
| `ValueWalk.IdentityResolver.BuildProductFields` | crates/marrow-compile/src/durable.rs:2032-2045 | over all fields sharing one memo: clean exactly when every field's anchor is live and its value fits, and then each row holds its own id and a node for its own expansion; a refusal is one of the fields' own missing anchor or true of a walk from its type |
| `WireOrder.Children` | crates/marrow-compile/src/durable.rs:2588-2596 | a bucket lists only the nodes nesting there, strictly by (class, traversal position) |
| `WireOrder.ChildrenAre` | crates/marrow-compile/src/durable.rs:2588-2596 | and it lists all of them |
| `WireOrder.ClassesInOrder` | crates/marrow-compile/src/durable.rs:2527-2534 | the children of a parent are exactly the nodes that name it, fields before groups before branches, each class in traversal order |
| `WireOrder.SiblingsApart` | crates/marrow-compile/src/durable.rs:2605-2632 | two siblings share nothing below them |
| `WireOrder.PreorderLists` | crates/marrow-compile/src/durable.rs:2605-2632 | the walk lists exactly the nodes reached through filled nodes |
| `WireOrder.PreorderInOrder` | crates/marrow-compile/src/durable.rs:2591-2632 | siblings appear by (class, position) and nothing twice |
| `WireOrder.PreorderDepthFirst` | crates/marrow-compile/src/durable.rs:2605-2632 | each subtree is listed in one piece right after its root |
| `WireCommands.EmittedAreImages` | crates/marrow-compile/src/durable.rs:2605-2632 | the uncut emission is, node for node, the walk's shapes with each parent index pointing at the image of the node's own parent, strictly earlier |
| `WireCommands.Emit` | crates/marrow-compile/src/durable.rs:2605-2632 | the bounded emission, taking shapes as it goes, is the uncut one cut to the admitted number, and it takes no shape outside its bucket |
| `WireCommands.DeclarationCommands` | crates/marrow-compile/src/durable.rs:2588-2600 | the commands spell the first 8193 nodes of the listing: each node's shape under the command of its own parent, which comes earlier; under one parent fields come before groups before branches, each in traversal order |
| `WireCommands.WalkMeans` | crates/marrow-compile/src/durable.rs:2580-2632 | the walk lists each node with no vacancy at or above it exactly once, siblings as fields, groups, branches in traversal order, each subtree in one piece after its root |
| `WireCommands.FilledWalkIsPermutation` | crates/marrow-compile/src/durable.rs:2580-2600 | with every shape filled the walk is a permutation of the buffer |

## Left out

- Journal.Claim: a crash on the way is promised safe only over a committed absence, because otherwise it is not; `Markers.ClaimSafeIffAbsenceCommitted` is the exact condition.
- Recovery.ClaimCrashRecover: starts from a committed absence, because otherwise a crash can leave a corrupt pair; the exact condition is the same.
- Recovery.FinishCrashFinish: starts from a journal whose content is durable and whose name is committed; without that a crash may leave fewer records, and `Recovery.CrashReady` says what is left is still ready.
- Tape.OwnerLatticeViolation: that a region shape is the earliest one is stated over the labels of the walk (`Tape.WalkTape`), not over all paths, because which states meet at an instruction depends on the order of the walk.
- Execution.ValidateLowered: does not cover use checks and direct test operations, which follow the three passes and speak about other diagnostics.
- ValueWalk.IdentityResolver.BuildValueShape: identity gaps already reported by another resolver are refused here like any other gap; report deduplication is left out.
- WireCommands.DeclarationCommands: requires that parents precede their children, as the traversal that fills the buffer guarantees.
- System calls, errno refinement, mode bits other than the exact 0600 check, and the creation window of an exclusive create, which is taken as one step with its mode.
- The lock file, directory admission, renames and exchanges, and concurrent writers: the journal's directory is changed by the journal alone.
- Reuse of inode numbers: a new file gets an identity no live file has.
- Entry-name admission.
- Durability beyond a successful sync, which the crate does not claim.
- Diagnostic text, spans used only for rendering, the syntax bridge of the collector, and editor queries.
- Parsing, lowering, type resolution, presence analysis and image encoding.
- The report-once flag of a refusal, namespaces' own duplicate checks, and the spelling of keys.
- Managed indexes, keyed branches' entry records, and the durable registry across trees.
- Hash fingerprints and node stamps of the arena: interning is modelled as a search for an equal node, and exhaustion of stamps as the same failure as a full arena.
- Digests, scalar tables and constant folding.
