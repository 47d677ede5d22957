# Polint, verified models

Dafny models of the parts of the polint analyser whose correctness is hardest to see, with
proofs of what they promise. Six components are covered:

- **Policy queries** (`Graphs`, `Dominance`, `Mir`, `CheckedError`, `CheckedOutcomes`, `GuardVerdicts`, `Paths`,
  `CheckedPaths`, `GuardPaths`, `CallReach`): graph searches with budgets and three-valued verdicts, tied to paths of
  the control-flow and call graphs and to the values that operations executed along them store.
- **Compare-and-swap on files** (`Quarantine`, `QuarantineOutcomes`): removal, restore, write and directory removal as
  one state machine over a directory, interleaved with arbitrary other writers.
- **Baselines** (`Baseline`, `BaselineMatch`, `BaselineConfig`, `BaselineStability`, `BaselineText`):
  position-independent identities, matching, classification, update, rendering and parsing.
- **Metrics cache** (`MetricsCache`): an inputs memo over a validated layer store.
- **Comment ignores** (`Scanner`, `Directives`, `Ignores`, `IgnoreApplication`, `IgnoreTargets`): scanner, directive
  search, block pairing, targets, suppression and reporting.
- **Digests, plans and paths** (`Fnv`, `Capabilities`, `PlanDigest`, `PathNormalize`).

`Options`, `Text` and `Ordering` hold shared vocabulary. `dafny verify dfyconfig.toml` checks everything.

## What the proofs found

- The walk that decides what a branch tests follows one copy only. A copy of a copy of the guard's error is missed,
  so an error tested on every path can be reported as never tested; and a result place reused before it is copied
  is still believed. Both families are delimited exactly over an executed store.
- That walk looks at listed order, not at control flow. A loop that overwrites the error on one branch and tests it on
  the other is covered, though on some path the test sees another value; and an error copied only at the end of a loop
  whose head tests it is reported as never tested. On paths of the graph and for every body, a test sees the guard's
  error on all of them exactly when every chain of copies from the tested place leads back to the guard's call; and a
  never-tested verdict is wrong about a dominating branch after the guard exactly when a chain leads there from the
  guard's call through a write that is listed after the branch or copies a place other than the result place.
- A branch in the operation's own block counts as dominating and the scan has no upper bound, so a test that
  comes after the operation still gives a covered verdict. Error paths are excluded in every case; being
  checked before arrival holds exactly when the two blocks differ. Of several error edges only the first is searched.
- The same holds of argument bindings: a loop that reassigns the argument after the operation is covered, though the
  operation then gets a value the guard never saw; it gets the guarded one on every path exactly when no chain of copies
  leads to another origin through a write listed outside the stretch between the calls. A last write from a distinct
  root refutes a binding even when it restores the guarded value; the refutation is wrong exactly when every chain leads
  back to the argument as the guard left it.
- Coverage needs only sound dominator rows. Rows that also hold the immediate dominators make the lookup exact.
- An empty reachability answer is silent: it hides a reachable forbidden call exactly when there is one and the
  budget is zero or all of them lie beyond the depth limit. Nonempty unmarked answers are complete.
- The link call cannot link a directory, so a file task that displaces a directory leaves it under the
  quarantine name. A directory removal may answer no with the directory stranded, or with the directory removed.
- Updating a baseline is stable for all configurations exactly when no two diagnostics of one file share a key; for
  the ordered configurations that parsing yields, and diagnostics whose custom fingerprints are not themselves results of
  the fingerprint function, it fails exactly when a contested key has one surplus diagnostic.
- An unterminated block comment loses its last character when that is a single byte, in the comment text, and
  the same character is then taken for code by the first-code-line scan.
- A baseline entry whose file name holds a control character is accepted and rendered, but the rendered file is no YAML.
- A directive's column counts bytes of the comment line, so it is exact only after single-byte characters.

## Modelling decisions

- Fingerprints are a parameter; where distinctness matters it is collision free. Metrics digests are identified
  with what they digest, and the canonical output is a function of the canonical inputs.
- Dominator rows are taken to describe one control-flow graph.
- The store that gives writes their meaning is executed along a path of the control-flow graph: the operations of each
  block on it, in listed order, up to the operation in question. The lemmas of `Mir` are about one stretch of operations
  executed straight through; those of `Paths`, `CheckedPaths` and `GuardPaths` about all paths.
- The guard's result place stands for its value from the start, because a binding may be listed before its call; the
  value of any execution of the guard's call counts as the guard's. Partial, simultaneous and unknown assignments and
  plain writes do not tell what they store. A path to a test of the result place on which the guard has not run yet thus
  counts as testing the guard. An argument is one place, followed from the last execution of the guard; its value is
  tracked as that of a call the body does not make, and writes to other places of its root leave it.
- A forged layer that is intact and valid for its key is noticed by no read, so histories exclude it; once a full run
  has accepted one, the memo written from it is no longer truthful.
- Other writers act on names, never on the task's own quarantine and temporary names and never through an open
  descriptor. A temporary name differs from the target. Error kinds are merged into write, read, persist and
  concurrent modification. System calls that may fail take the failure from an explicit choice.
- Strings are sequences of Unicode characters; byte lengths and offsets are written out where the program uses them.
- Ordered maps and sets are sorted lists by code point, which is the order of UTF-8 bytes.
- Sizes, counters and positions are unbounded; only the hash state is reduced modulo 2^64.

## Model

| member | source | states |
|---|---|---|
| `Dominance.BuildRelation` | crates/polint/src/policy_queries.rs:1514-1520 | The relation has an edge exactly for each row, and is empty exactly when there are no rows. |
| `Dominance.RelationReaches` | crates/polint/src/policy_queries.rs:1559-1573 | The breadth-first closure ends on every relation, cyclic ones included, and answers true exactly when one or more rows lead from the start to the target. |
| `Dominance.LookUpBlocks` | crates/polint/src/policy_queries.rs:1545-1557 | The three-valued answer: same block holds, empty relation is unknown, otherwise reachability along rows. |
| `Dominance.ImmediateDominatorOnPath` | crates/polint/src/policy_queries.rs:1509-1574 | Every reachable block but the entry has an immediate dominator, and it lies on any given path before the end: the fact that makes immediate-only rows sufficient. |
| `Dominance.ImmediateChainReaches` | crates/polint/src/policy_queries.rs:1559-1573 | A strict dominator is found by following immediate dominators alone. |
| `Dominance.HoldsMeansDominates` | crates/polint/src/policy_queries.rs:1538-1557 | With sound rows, an answer that holds proves that every path from the entry passes through the candidate. |
| `Dominance.LookupIsDominance` | crates/polint/src/policy_queries.rs:1513-1573 | For any rows between the immediate dominators and full dominance, and any two reachable blocks, the lookup holds exactly when the candidate dominates the event and is never unknown. |
| `Dominance.MaterialisationsAgree` | crates/polint/src/policy_queries.rs:1513-1573 | Immediate-only, full and any materialisation between give the same answers. |
| `Mir.WritesPlaceMeaning` | crates/polint/src/policy_queries.rs:1129-1138 | An operation writes a place exactly when it is an assignment, a binding, a plain write or a call with that target. |
| `Mir.AttributedMeaning` | crates/polint/src/policy_queries.rs:1140-1166 | A write tells what it stores exactly when it is a declaration, an overwrite, a mutation of the one place named, a binding or a call. |
| `Mir.DefinitionReachingIsExact` | crates/polint/src/policy_queries.rs:1098-1175 | For operations executed straight through in listed order: where only the guard's call writes its result place, every write tells what it stores and only that place is copied on, the walk says "from the guard" exactly when the tested place holds the returned value and "elsewhere" exactly when it never may have held it. |
| `Mir.FromGuardExactlyWhen` | crates/polint/src/policy_queries.rs:1098-1127 | "From the guard" is right about the executed store exactly unless the last write copied the result place after something else was put there. |
| `Mir.AmbiguousExactlyWhen` | crates/polint/src/policy_queries.rs:1098-1127 | "Ambiguous" hides a place that holds the value exactly when its last write copied another holder. |
| `Mir.ElsewhereExactlyWhen` | crates/polint/src/policy_queries.rs:1098-1127 | "Elsewhere" is right, the place never may have held the value, exactly when no write of it is untold or copies another possible holder. |
| `Mir.LeaksExactlyWhen` | crates/polint/src/policy_queries.rs:1129-1175 | With an owned result place, a body lets the value past the walk exactly when it has an untold write or copies a place the walk itself attributes to the guard. |
| `Mir.SecondCopyIsMissed` | crates/polint/src/policy_queries.rs:1098-1127 | A window in which a copy of a copy holds the guard's value and the walk says elsewhere. |
| `Mir.StaleCopyIsBelieved` | crates/polint/src/policy_queries.rs:1098-1127 | A window in which the result place was reused before it was copied and the walk says from the guard. |
| `CheckedError.IndexEdges` | crates/polint/src/policy_queries.rs:1197-1237 | The index keeps exactly the normal-control edges as successors, and the condition edges of each block in order. |
| `CheckedError.BuildIndex` | crates/polint/src/policy_queries.rs:1197-1237 | The index built from one edge list is consistent: every condition edge it offers is also a successor edge. |
| `CheckedError.ErrorKindMeaning` | crates/polint/src/policy_queries.rs:1239-1254 | The error edge is the one a value other than nil takes through the test, and never the one nil takes. |
| `CheckedError.FirstOfKindIsListed` | crates/polint/src/policy_queries.rs:1239-1254 | The error edge chosen for a nil test is the first listed edge of the polarity that means "not nil", and none is chosen exactly when none is listed. |
| `CheckedError.SearchIsCertified` | crates/polint/src/policy_queries.rs:1256-1276 | As a function of its inputs the search answers Reaches or DoesNotReach only when a path exists or none does, and BudgetExceeded only after meeting as many reachable blocks as the limit, the target not among them. |
| `CheckedError.RuledOutWithinLimit` | crates/polint/src/policy_queries.rs:1256-1276 | A search that rules the target out has met every block reachable from the start, and these are no more than the limit. |
| `CheckedError.BoundedReaches` | crates/polint/src/policy_queries.rs:1256-1276 | The nested loops compute that function, so one input has one answer, and the answer is certified. |
| `CheckedError.DecideCheckedError` | crates/polint/src/policy_queries.rs:995-1072 | The scan returns the verdict of the first deciding branch, with the same order of reasons, or the ambiguous or never-tested verdict when none decides. |
| `CheckedOutcomes.VerdictExactlyWhen` | crates/polint/src/policy_queries.rs:995-1072 | The decision gives each of its answers exactly on its condition, read off operations, blocks, edges and rows: a later branch attributed to the guard is passed over exactly when it tests exhaustively in a known block that is not found to dominate; the first one not passed over decides by the search from its error edge, or by what it lacks; without one the answer is ambiguous or never tested; the three early answers have their own conditions. |
| `CheckedOutcomes.CoveredExactlyWhen` | crates/polint/src/policy_queries.rs:995-1072 | Covered exactly when that first branch tests exhaustively and the bounded search does not lead from its error edge to the operation. |
| `CheckedOutcomes.ViolationExactlyWhen` | crates/polint/src/policy_queries.rs:995-1072 | A violation exactly when the search leads there, or the guard returns no result, or no attributed branch decides and none is doubtful. |
| `CheckedError.CoveredExcludesErrorPaths` | crates/polint/src/policy_queries.rs:995-1072 | A covered verdict names an exhaustive test, attributed to the guard, whose block lies on every path to the operation and whose error edge lies on none; only soundness of the rows is needed. The test is also passed before arrival exactly when it is in another block. |
| `CheckedError.EveryErrorEdgeExcludedExactlyWhen` | crates/polint/src/policy_queries.rs:1239-1254 | Of several error edges of the block only the first is searched: a covered verdict excludes all of them exactly when none reaches the operation, hence always when there is one. |
| `CheckedError.BeforeArrivalIffDistinct` | crates/polint/src/policy_queries.rs:1018-1066 | Under excluded error paths, every path takes a non-error edge of the branch before arriving if and only if branch and operation are in different blocks. |
| `CheckedError.SameBlockIsCoveredUnchecked` | crates/polint/src/policy_queries.rs:1018-1066 | A concrete body whose test follows the operation in its own block: covered, though no check is passed on arrival. |
| `CheckedError.ViolationHasErrorPath` | crates/polint/src/policy_queries.rs:1050-1066 | A violation for the error path has a witness: a path from the entry through the branch's error edge to the operation. |
| `CheckedError.NeverTestedScan` | crates/polint/src/policy_queries.rs:1068-1072 | With exact rows, under a never-tested verdict every later branch tests a place that the walk finds elsewhere, or sits in a block that does not dominate the operation. |
| `Paths.OnEveryPathExactlyWhen` | crates/polint/src/policy_queries.rs:1098-1175 | For every body: a place holds the value of the guard's call at an operation on every path exactly when no chain of copies leads back from it to another origin. In a chain each write reaches the next and copies the place the one before it wrote; the first is no copy, or copies a place untouched since the start. |
| `Paths.AttributedReachSuffices` | crates/polint/src/policy_queries.rs:1098-1175 | With an owned result place, it suffices for every path that neither the entry nor a write not attributed to the guard reaches the operation, whatever else the body copies. |
| `Paths.OnSomePathExactlyWhen` | crates/polint/src/policy_queries.rs:1098-1175 | For every body: it holds that value on some path exactly when some such chain leads back to the guard's call, or to the result place untouched since the start. |
| `Paths.ArrivesOnlyBy` | crates/polint/src/policy_queries.rs:1098-1175 | In every body, the returned value arrives at another place only through a reaching write that is attributed to the guard or copies a place other than the result place. |
| `CheckedPaths.CoveredTestsGuardExactlyWhen` | crates/polint/src/policy_queries.rs:995-1072 | A covered verdict names a test whose error edge lies on no path to the operation; in every body it tests the returned value on every path exactly when no chain of copies leads from the tested place back to another origin, and with an owned result place if only attributed writes reach it. |
| `CheckedPaths.TestsGuardExactlyWhen` | crates/polint/src/policy_queries.rs:1018-1066 | For every branch of every body, also one listed before the guard that the scan does not look at: it tests the returned value on every path exactly when no chain leads back to another origin, and on some path exactly when a chain leads back to the guard's call. |
| `CheckedPaths.OverwrittenInLoopIsCovered` | crates/polint/src/policy_queries.rs:1018-1066 | A body with sound rows and an owned result place that is covered, and a path to its test on which the tested place holds another value: a loop overwrites the error on one branch and tests it on the other. |
| `CheckedPaths.NeverTestedExactlyWhen` | crates/polint/src/policy_queries.rs:1068-1072 | Under a never-tested verdict, in every body: a dominating branch after the guard tests the returned value on some path exactly when a chain leads from the guard's call to it whose last write is attributed but listed after the branch, or copies a place other than the result place. |
| `CheckedPaths.LateWriteIsMissed` | crates/polint/src/policy_queries.rs:1068-1072 | With an owned result place, every attributed write that reaches a branch, such as one listed after it, makes it test the returned value on some path. |
| `CheckedPaths.LateCopyIsCalledUntested` | crates/polint/src/policy_queries.rs:1018-1072 | A body whose loop tests the error from its second turn on, copied at the end of each turn: the verdict is the violation "never tested". |
| `CheckedPaths.SecondCopyIsCalledUntested` | crates/polint/src/policy_queries.rs:1018-1072 | A body whose error is tested through a copy of a copy on every path, with the error edge leaving: the verdict is the violation "never tested". |
| `GuardVerdicts.ReassignmentBetween` | crates/polint/src/policy_queries.rs:929-981 | The answer is that of the last write to either argument's root strictly between guard and operation, no-write exactly when there is none, and unreadable exactly when the two are not in one indexed body. |
| `GuardVerdicts.RelateIdentity` | crates/polint/src/policy_queries.rs:841-884 | The answer is bound exactly on an established identity and a mismatch exactly on a refuted one, both as conditions on places, alias rows and operations that the next rows spell out, and a function of its inputs. |
| `GuardVerdicts.IdentityMeaning` | crates/polint/src/policy_queries.rs:841-884 | When each answer is given, as equivalences on places, alias rows and operations: bound on related arguments untouched between the calls, mismatch on arguments a row says do not alias or on a last write from a distinct root, indeterminate on a position out of range, a may or missing alias, an unknown source, or no common body. |
| `GuardVerdicts.BindArgumentsMeaning` | crates/polint/src/policy_queries.rs:855-910 | Two arguments are one place, or the consumed one is the guarded one with at least one more projection, or the first alias row that names the two in either order says they must alias: each exactly when the answer is bound so. Apart exactly when that row says they do not, open exactly when it says they may or there is none. |
| `GuardVerdicts.GuardedWholeBindsItsParts` | crates/polint/src/policy_queries.rs:886-901 | A guard on `actor` binds `actor.TenantID`, and a guard on `actor.TenantID` leaves `actor` open. |
| `GuardVerdicts.WritesRootMeaning` | crates/polint/src/policy_queries.rs:956-990 | A write between the calls counts exactly when its target shares its root with either argument, and comes from a distinct root exactly when it stores what a place of another root holds. |
| `GuardPaths.KeptExactlyWhen` | crates/polint/src/policy_queries.rs:918-981 | For every body: a place keeps its value on every path from the guard to the operation exactly when no chain of copies on such a path leads from what the operation gets back to another untouched place or to a write that is no copy. It is about the one place: a write to another place of its root, such as a field, leaves it. |
| `GuardPaths.OtherWriteStrays` | crates/polint/src/policy_queries.rs:918-981 | A write of the place that is no copy and reaches the operation is such a chain by itself. |
| `GuardPaths.BoundArgumentExactlyWhen` | crates/polint/src/policy_queries.rs:841-884 | When one known place is bound on both sides, in every body: the operation gets the guarded value on every path exactly when no straying chain ends in a write listed outside the stretch between the calls. The claim is about that place, not about others of its root. |
| `GuardPaths.ReassignedInLoopIsCovered` | crates/polint/src/policy_queries.rs:841-981 | A body that is covered with the same place bound, and a path from the guard on which the operation gets another value: the loop reassigns the argument after the operation. |
| `GuardPaths.ReassignedIsWrongExactlyWhen` | crates/polint/src/policy_queries.rs:841-981 | A mismatch for reassignment rests on a write from a distinct root between the calls, to any place of the root. It is wrong about the operation's argument, which keeps its value on every path, exactly when every chain of copies from what the operation gets leads back to the argument as the guard left it. |
| `GuardPaths.RestoredArgumentIsRefuted` | crates/polint/src/policy_queries.rs:918-981 | A body that saves the argument in another variable and restores it: refuted as reassigned although the operation gets the guarded value on every path. |
| `GuardVerdicts.DecideCandidate` | crates/polint/src/policy_queries.rs:784-839 | The verdict is a function of its inputs; it is covered exactly when the guard dominates, its error is checked where required and its argument is bound where required, a violation exactly when it does not dominate, or its checked-error verdict is one, or it is checked and the arguments mismatch, and undecided otherwise. |
| `GuardVerdicts.VerdictMeaning` | crates/polint/src/policy_queries.rs:784-839 | These equivalences for every candidate, query and index. |
| `GuardVerdicts.DecideGuards` | crates/polint/src/policy_queries.rs:749-782 | The decision is the three-valued disjunction over the guards before the operation and the first verdict of the best rank; without a guard it says whether one comes later. |
| `GuardVerdicts.DecidedIsDisjunction` | crates/polint/src/policy_queries.rs:749-782 | The decision is covered exactly when some guard before the operation is, and a violation exactly when all are, the early exit included. |
| `GuardVerdicts.MoreGuardsNeverRefute` | crates/polint/src/policy_queries.rs:737-782 | With more events before the operation or more accepted guard names, the decision never gets worse: covered stays covered and undecided does not become a violation. |
| `GuardVerdicts.CoverByRelation` | crates/polint/src/policy_queries.rs:1458-1479 | Established when some answer holds, otherwise the first unknown reason, otherwise none holds with whether a candidate was seen. |
| `GuardVerdicts.QueriesAgree` | crates/polint/src/policy_queries.rs:517-534 | Without checked-error requirement and binding, the missing-guard fold and the outcome fold decide every operation alike, with the same first unknown reason. |
| `GuardPaths.CoveredOperationIsGuarded` | crates/polint/src/policy_queries.rs:749-839 | A covered operation has a matching earlier guard that dominates it on the control-flow graph. When asked for, a test shuts the guard's error edge out of all paths, and tests its value on all of them exactly when no chain leads to another origin; and the argument is bound, and keeps its value on all paths exactly when no chain strays through a write listed outside the stretch between the calls. |
| `GuardVerdicts.RefutedMeansEveryGuardFails` | crates/polint/src/policy_queries.rs:749-839 | The decision is a violation exactly when every matching guard before the operation fails: does not dominate, has its error refuted, or has a mismatched argument. |
| `GuardVerdicts.PlainDecisionIsExact` | crates/polint/src/policy_queries.rs:749-839 | When only dominance is asked for and the rows are exact, covered means some earlier guard dominates and violation that none does. |
| `CallReach.SearchRoot` | crates/polint/src/policy_queries.rs:432-486 | For one root: every hit is a forbidden edge within the depth limit, reported once, at its caller's shortest distance plus one, with a path that is a genuine call chain. Unless the path cap stops the search, all of them are reported, and truncated says exactly whether the limit excluded an edge. The cap stops it exactly when the unlimited search has more hits; the list is then a prefix of the unlimited one, and nothing nearer than its farthest hit is left out. |
| `CallReach.UnresolvedIsNotFollowed` | crates/polint/src/policy_queries.rs:476-484 | A call that is not resolved is not followed, even when it names a target. |
| `CallReach.ForbiddenReachableCalls` | crates/polint/src/policy_queries.rs:412-496 | All roots in order under one path cap, the cap met only at the last root searched. The answer is a function of the query: nothing without a budget, otherwise the first hits of the unlimited search, the last of them marked exactly when there are more or something lies beyond the depth limit. |
| `CallReach.SmallerLimitOnlyCuts` | crates/polint/src/policy_queries.rs:454-496 | Of two answers for one graph, the one under the smaller path limit reports, but for the mark, what the other reports first; and if it carries hits and no mark, the other is the same. |
| `CallReach.UnmarkedIsComplete` | crates/polint/src/policy_queries.rs:412-496 | A nonempty answer without a mark holds every forbidden call of every function reachable from any root at any distance. |
| `CallReach.MarkIsTruthful` | crates/polint/src/policy_queries.rs:488-496 | With a hit to carry it, the mark tells exactly whether anything was cut. |
| `CallReach.EmptyExactlyWhen` | crates/polint/src/policy_queries.rs:412-496 | With a path budget, the answer is empty exactly when no forbidden call of any root lies within the depth limit, and then the search was cut exactly when some function with calls lies beyond it. |
| `CallReach.SilentlyIncompleteExactlyWhen` | crates/polint/src/policy_queries.rs:412-496 | An answer without a mark misses a reachable forbidden call exactly when there is one and the query has a zero budget or all of them lie beyond the depth limit. |
| `CallReach.EmptyAnswerHidesTruncation` | crates/polint/src/policy_queries.rs:488-496 | A concrete graph whose forbidden call lies one hop beyond the limit: the answer is empty and unmarked. |
| `Quarantine.CallKeepsInvariant` | crates/polint/src/repo_fs.rs:837-963 | Each call of the removal, restore, write and directory protocols keeps what the task knows about its quarantine and temporary names. |
| `Quarantine.RunInvariant` | crates/polint/src/repo_fs.rs:837-963 | The invariant holds in every state of every interleaving with other writers. |
| `Quarantine.NothingUnexpectedIsLost` | crates/polint/src/repo_fs.rs:837-963 | In every interleaving a call removes a file's last link only if the file is the expected one, the task's temporary, the target of an unconditional replacement, or was put back and then taken away by another writer. |
| `Quarantine.TargetIsNeverClobbered` | crates/polint/src/repo_fs.rs:1414-1507 | No call overwrites an occupied target: it moves it aside under a held quarantine name, or replaces it where the caller asked for that. |
| `Quarantine.RemovedWasExpected` | crates/polint/src/repo_fs.rs:918-963 | A removal that answers yes displaced exactly the expected file, and left nothing under its quarantine name. |
| `Quarantine.SwapWasExpected` | crates/polint/src/repo_fs.rs:1414-1507 | A compare-and-swap that succeeds displaced exactly the expected file and later put the new contents at a target that was free. |
| `Quarantine.FailureKeepsVictim` | crates/polint/src/repo_fs.rs:866-901 | After every failure the displaced file was put back or is still under its quarantine name. |
| `QuarantineOutcomes.AloneOutcome` | crates/polint/src/repo_fs.rs:837-963 | Without other writers and failing calls, every task returns what its caller is promised and changes exactly that: a matching file or an empty expected directory is gone, a store has put its file at the target and nothing else, and every other return leaves the directory as it was, but for a directory in the way of a file task, which is under the quarantine name. |
| `QuarantineOutcomes.AloneReturns` | crates/polint/src/repo_fs.rs:837-963 | Every task has such a run on any directory with two free names. |
| `QuarantineOutcomes.StoredLeavesExactly` | crates/polint/src/repo_fs.rs:837-963 | In every interleaving, a store that succeeds leaves its temporary name, or the replaced file under its quarantine name, exactly when unlinking that failed. |
| `QuarantineOutcomes.FailedLeavesExactly` | crates/polint/src/repo_fs.rs:837-963 | A store that fails leaves its temporary name exactly when the call that cleans it up failed. |
| `QuarantineOutcomes.NotPutBackExactlyWhen` | crates/polint/src/repo_fs.rs:837-963 | A file task that fails after displacing a file has put it back, exactly unless a link call found the target taken, the file could not be linked, or removing it failed; then it is under its quarantine name. |
| `QuarantineOutcomes.FailureExactlyWhen` | crates/polint/src/repo_fs.rs:837-963 | The reported error is that of the last call that ran into one, for each kind of error. |
| `Quarantine.OccupiedTargetKeepsQuarantine` | crates/polint/src/repo_fs.rs:866-888 | A link call that finds the target occupied, when restoring or when publishing, ends in a concurrent modification with the displaced file under its quarantine name and not put back; and a task ends so only after such a call. |
| `Quarantine.RefusalPutBack` | crates/polint/src/repo_fs.rs:918-963 | A file removal that answers no found nothing, or put back a file other than the expected one. |
| `Quarantine.PutBackExactlyWhen` | crates/polint/src/repo_fs.rs:866-888 | Putting back succeeds exactly when the target is free, what was displaced is no directory, and the call does not fail. |
| `Quarantine.DirectoriesAreStranded` | crates/polint/src/repo_fs.rs:866-888 | A file task that displaced a directory always ends in a failure with the directory under the quarantine name. |
| `Quarantine.StrandedDirectoryExample` | crates/polint/src/repo_fs.rs:837-963 | Such a run with no other writer at all. |
| `Quarantine.DirectoryRefusalExactlyWhen` | crates/polint/src/repo_fs.rs:1040-1096 | A directory removal that answers no never found it, put it back, left it under the quarantine name or removed it, each exactly when one of its calls did so: the rename found no target, the restoring rename found the target free, or occupied, or the unlink succeeded after a racer had been seen. |
| `Quarantine.RacerWasSeen` | crates/polint/src/repo_fs.rs:1080-1096 | An unlink that answers for a racer comes after a look that found the target occupied. |
| `Quarantine.DirectoryAnswerCanStrand` | crates/polint/src/repo_fs.rs:1040-1096 | A run in which the directory stays under its quarantine name behind the answer no. |
| `Quarantine.DirectoryAnswerCanRemove` | crates/polint/src/repo_fs.rs:1040-1096 | A run in which the directory is removed behind the answer no. |
| `Quarantine.CallsAreBounded` | crates/polint/src/repo_fs.rs:777-863 | However other writers interleave, the task returns within a fixed number of its own calls. |
| `MetricsCache.Session.Read` | crates/polint/src/analysis_kernel/incremental/layer_cache.rs:292-370 | A hit exactly on an enabled cache with an intact stored layer that the caller's validator accepts; a hit leaves the store alone, and any other read of a stored layer removes it and nothing else. |
| `MetricsCache.Session.DeriveRequested` | crates/polint/src/metrics.rs:38-160 | The stateful run computes the specified run, answers exactly as the stores say, leaves its facts, and agrees with the uncached derivation on stores in order. |
| `MetricsCache.Session.DeriveInFull` | crates/polint/src/metrics.rs:94-160 | After a hit the layer's facts and digest with one hit and nothing else counted; after any other read the facts are derived, and counted as one recomputation with that miss, eviction or bypass. On stores in order it agrees with the uncached derivation and keeps them so. |
| `MetricsCache.RunAnswersExactly` | crates/polint/src/metrics.rs:38-160 | On any stores: a requested run is answered by the layer a believed memo names if that is intact and the one the memo was written for, else by the canonical layer if that is intact, has the right output and was not evicted through the memo, with that layer's facts and digest and one hit; otherwise it derives the facts, with one recomputation and a bypass, an eviction or a miss as the store is disabled, has something readable under the canonical inputs, or has nothing. |
| `MetricsCache.RunLeavesExactly` | crates/polint/src/metrics.rs:38-160 | On any stores: which layers a run evicts and stores, and when it writes which memo. |
| `MetricsCache.RunAgrees` | crates/polint/src/metrics.rs:38-160 | On stores in order a run leaves facts whose output and digest equal those of the uncached derivation, counts a recompute exactly when it counts no hit, and keeps the stores in order. |
| `MetricsCache.MemoAnswerIsCorrect` | crates/polint/src/metrics.rs:258-298 | While the memos are truthful, a run answered through the memo is correct whatever the layers hold. |
| `MetricsCache.MemoSurvivesForgedLayers` | crates/polint/src/metrics.rs:258-298 | After every noticeable history and then any damage to the layers, consistent forgeries included, a memo-answered run is correct. |
| `MetricsCache.EveryRunAgrees` | crates/polint/src/metrics.rs:38-160 | After every history of runs, deletions and detectable corruptions a requested run agrees with the uncached derivation. |
| `MetricsCache.RepeatedRunHits` | crates/polint/src/metrics.rs:258-298 | A run that stored both entries is answered by the memo the next time, with the same facts and unchanged stores. |
| `Baseline.DiagnosticFingerprints` | crates/polint/src/baseline.rs:190-258 | The numbering loop gives each diagnostic its own fingerprint when custom, and otherwise the occurrence number counting the earlier members of its scope. |
| `Baseline.OccurrencesAreExact` | crates/polint/src/baseline.rs:190-258 | A scope with n default diagnostics uses exactly the numbers 0..n-1, each once. |
| `Baseline.OccurrenceFingerprintsDistinct` | crates/polint/src/baseline.rs:602-608 | Different occurrence numbers give different fingerprints, number 0 included. |
| `Baseline.NumberedByPlace` | crates/polint/src/baseline.rs:211-232 | Within a scope diagnostics are numbered by their range, start before end and line before column. |
| `Baseline.DefaultStableExactlyWhen` | crates/polint/src/baseline.rs:551-563 | Two default fingerprints agree exactly for one rule, file, range and message. |
| `Baseline.FromDiagnostics` | crates/polint/src/baseline.rs:66-77 | The baseline is the sorted, duplicate-free list of the diagnostics' entries. |
| `Baseline.EntriesAreCalledFor` | crates/polint/src/baseline.rs:190-258 | Which entries are recorded depends only on how often each rule, file and base fingerprint occurs, in both directions. |
| `Baseline.BaselineIgnoresOrder` | crates/polint/src/baseline.rs:66-77 | Permuting the diagnostics changes nothing of the baseline. |
| `Baseline.BaselineIgnoresMoves` | crates/polint/src/baseline.rs:190-258 | Moving default-fingerprint diagnostics to other ranges of their files changes nothing of the baseline. |
| `BaselineMatch.FindAtHome` | crates/polint/src/baseline.rs:268-276 | The first unmatched, non-excluded diagnostic of the entry's file with its key, or none exactly when there is none. |
| `BaselineMatch.MatchAtHome` | crates/polint/src/baseline.rs:266-279 | The same-file phase is an injective matching that leaves no unmatched entry a free diagnostic in its own file. |
| `BaselineMatch.MatchEntries` | crates/polint/src/baseline.rs:260-317 | The matching is a function of its inputs; it is injective, avoids excluded diagnostics, takes the first free diagnostic at home, exhausts every file, relocates only an only entry to an only diagnostic of its key, and leaves no such lone pair apart unless another key took the diagnostic. |
| `BaselineConfig.Classify` | crates/polint/src/baseline.rs:396-437 | New, existing and ignored diagnostics follow the two matchings; they sum to all diagnostics, existing and fixed sum to the active entries, and nothing underflows. |
| `BaselineConfig.SelectMeaning` | crates/polint/src/baseline.rs:396-437 | The visible and the new diagnostics are all those not left out, each once and in order. |
| `BaselineConfig.UpdateFor` | crates/polint/src/baseline.rs:79-105 | The updated baseline records exactly the entries of the matched diagnostics under their current identity, and keeps the ignore list as a set. |
| `BaselineConfig.UpdateRecordsOfNew` | crates/polint/src/baseline.rs:79-105 | What an update records is what a new baseline of the same diagnostics would record. |
| `BaselineConfig.FoundByEitherFingerprint` | crates/polint/src/baseline.rs:137-172 | An entry is found at home by the recorded or the stable fingerprint of a diagnostic of its rule, and by nothing else. |
| `BaselineConfig.IgnoredExactly` | crates/polint/src/baseline.rs:396-437 | Without shared keys, a diagnostic is ignored exactly when some ignore entry of its file has its key. |
| `BaselineConfig.RecordedAreFound` | crates/polint/src/baseline.rs:260-317 | Entries recorded from distinct diagnostics are all matched again in their own files. |
| `BaselineConfig.UpdateIsStable` | crates/polint/src/baseline.rs:79-105 | Without shared keys, update then classify gives the same ignored, existing and new sets, nothing fixed, nothing stale, and a second update changes nothing. |
| `BaselineStability.StableExactlyWhen` | crates/polint/src/baseline.rs:79-105 | Updating is stable for every configuration if and only if no two diagnostics of one file share a key. |
| `BaselineStability.StableForOrderedExactlyWhen` | crates/polint/src/baseline.rs:79-105 | For ordered, duplicate-free configurations, and diagnostics whose contested keys are their only ones, updating is stable for all of them if and only if no contested key is shared by exactly one diagnostic more than it has files. |
| `BaselineStability.OrdinaryStableExactlyWhen` | crates/polint/src/baseline.rs:79-105 | The same for all diagnostics whose custom fingerprints are not results of the fingerprint function. |
| `BaselineStability.TwoAlikeAreUnstable` | crates/polint/src/baseline.rs:79-105 | For two diagnostics of one file with one custom fingerprint, an ordered baseline whose update loses a match. |
| `BaselineStability.ThreeAlikeAreStable` | crates/polint/src/baseline.rs:79-105 | Three of them share a key and are stable for every ordered configuration. |
| `BaselineText.EntryRoundTrip` | crates/polint/src/baseline.rs:464-500 | A well-formed entry is parsed back from its one-line form. |
| `BaselineText.RoundTripExactly` | crates/polint/src/baseline.rs:464-500 | The round trip holds exactly for nonempty blank-free rule and fingerprint and a nonempty trimmed one-line file. |
| `BaselineText.QuoteRoundTrip` | crates/polint/src/baseline.rs:547-549 | Unquoting undoes single-quoting exactly for texts of the characters that section 7.3.2 of YAML 1.2.2 admits (tab, and from the blank on); other texts do not read back at all. |
| `BaselineText.RenderSection` | crates/polint/src/baseline.rs:525-545 | A section is rendered exactly when every entry fits one line, as its header and one quoted item per entry. |
| `BaselineText.RenderBaseline` | crates/polint/src/baseline.rs:389-394 | The file is rendered exactly when every entry of both sections fits one line. |
| `BaselineText.FileRoundTrip` | crates/polint/src/baseline.rs:379-394 | Reading what was rendered returns both sections sorted and without duplicates exactly when every entry holds only such characters, and otherwise fails. |
| `BaselineText.ControlCharacterDoesNotRead` | crates/polint/src/baseline.rs:379-394 | A well-formed entry, with U+0001 in its file name, whose rendered file does not read. |
| `Ignores.MatchUnique` | crates/polint/src/ignores.rs:424-461 | A start matches at most one end. |
| `Ignores.MatchUniqueStart` | crates/polint/src/ignores.rs:424-461 | An end matches at most one start. |
| `Ignores.BlocksNest` | crates/polint/src/ignores.rs:424-461 | Blocks of one file and selector list are nested or disjoint. |
| `Ignores.StackIsOpenStarts` | crates/polint/src/ignores.rs:428-440 | The stack of a key holds exactly its still open starts, innermost last. |
| `Ignores.EndMatchesTop` | crates/polint/src/ignores.rs:436-452 | An end matches the top of the stack and nothing else, and nothing on an empty stack. |
| `Ignores.LeftOpenIffUnmatched` | crates/polint/src/ignores.rs:453-461 | A start remains on the final stack exactly when balanced-bracket matching gives it no end. |
| `Ignores.PairBlocks` | crates/polint/src/ignores.rs:424-461 | The in-place stack machine leaves each directive as balanced-bracket matching prescribes. |
| `Ignores.UnpairedAreMalformed` | crates/polint/src/ignores.rs:424-461 | A directive ends malformed exactly when it was before, or is an unmatched start or end; other kinds and malformed ones are untouched. |
| `Ignores.KeyExactlyWhen` | crates/polint/src/ignores.rs:430-434 | Starts and ends belong together only in one file and with the same selectors. |
| `IgnoreApplication.MalformedSuppressNothing` | crates/polint/src/ignores.rs:145-169 | Ends, malformed directives and unpaired starts suppress nothing. |
| `IgnoreApplication.PairedStartSuppressesInside` | crates/polint/src/ignores.rs:145-169 | A paired start suppresses exactly the policy diagnostics of its file and selectors strictly between the line of its start and the line of its end. |
| `IgnoreApplication.FirstSuppressorIsFirst` | crates/polint/src/ignores.rs:211-226 | The directive a diagnostic is attributed to suppresses it and no earlier one does; none is found exactly when none suppresses. |
| `IgnoreApplication.ApplyIgnores` | crates/polint/src/ignores.rs:204-234 | The pass keeps exactly the diagnostics nothing suppresses and records each other one with its first suppressor. |
| `IgnoreTargets.CollectDirectives` | crates/polint/src/ignores.rs:374-422 | The loop makes of each parsed directive its target, problem and missing-reason mark by kind. |
| `IgnoreTargets.MadeMeaning` | crates/polint/src/ignores.rs:374-422 | Nothing parsed is lost; a directive is malformed exactly when it was parsed so or is a file ignore at or below the first code line, and lacks its reason exactly when one is required of it. |
| `IgnoreTargets.SuppressesExactlyWhen` | crates/polint/src/ignores.rs:145-169 | After pairing, a directive suppresses exactly the policy diagnostics of its file that one of its selectors names and whose line it covers: a line ignore its own line, a next-line ignore the line after it, a file ignore above the first code all lines, a start those between it and its end. |
| `IgnoreTargets.KeptExactlyWhen` | crates/polint/src/ignores.rs:204-234 | The kept diagnostics are, in order, those to which no directive applies. |
| `IgnoreTargets.RecordedExactlyWhen` | crates/polint/src/ignores.rs:211-226 | A directive records exactly the diagnostics it is the first to suppress, with their rule, fingerprint, file and line. |
| `IgnoreTargets.RuleMatchesMeaning` | crates/polint/src/core/rule.rs:603-611 | A selector names a rule as the wildcard, by its own name, or by a namespace it lies in. |
| `IgnoreTargets.IsPolicyMeaning` | crates/polint/src/ignores.rs:876-880 | A rule is policy exactly when it is in none of the three reserved namespaces. |
| `IgnoreApplication.Conservation` | crates/polint/src/ignores.rs:204-234 | Kept and attributed diagnostics add up to all of them, each attributed once. |
| `IgnoreApplication.NonPolicyIsKept` | crates/polint/src/ignores.rs:876-886 | Parser, internal and polint diagnostics are always kept. |
| `IgnoreApplication.Summarise` | crates/polint/src/ignores.rs:737-795 | Active, unused, malformed and missing-reason counts are those of the statuses and sum to the reported directives. |
| `IgnoreTargets.StatusExactlyWhen` | crates/polint/src/ignores.rs:171-185 | After the pass, a well-formed and explained directive that can suppress is active exactly when it is the first to suppress some diagnostic and otherwise unused; the other statuses follow from its form. |
| `IgnoreApplication.ReportCountsRemoved` | crates/polint/src/ignores.rs:737-795 | The report's suppressed total is the number of diagnostics removed. |
| `IgnoreApplication.HealthDiagnostics` | crates/polint/src/ignores.rs:692-735 | A warning is emitted for exactly the malformed, unexplained and unused directives, by status. |
| `IgnoreTargets.HealthExactlyWhen` | crates/polint/src/ignores.rs:692-735 | Each warning stands at its directive and is given exactly for what is wrong with it. |
| `Scanner.ScanComments` | crates/polint/src/ignores.rs:566-618 | The scanner yields exactly the comments of a reference lexer that skips quoted and backtick strings, with exact lines and columns. |
| `Scanner.QuoteEndMeaning` | crates/polint/src/ignores.rs:652-668 | A string ends after its first quote with an even number of backslashes before it, or with the source. |
| `Scanner.BacktickEndMeaning` | crates/polint/src/ignores.rs:670-679 | A raw string ends after its first backtick, or with the source. |
| `Scanner.CommentsInStringsAreNone` | crates/polint/src/ignores.rs:566-618 | What looks like a comment inside any of the three kinds of string is none. |
| `Scanner.WidthMeaning` | crates/polint/src/ignores.rs:681-690 | The width of a character is the number of octets that encode it. |
| `Scanner.SkipBlock` | crates/polint/src/ignores.rs:589-601 | A block comment is read to its first terminator; an unterminated one to the end, or one short of it when its last character is a single byte. |
| `Scanner.AgreesUnlessClipped` | crates/polint/src/ignores.rs:566-618 | All comments of a source have the reference lexer's texts if and only if the source does not end inside a block comment with a single-byte character. |
| `Scanner.UnterminatedCommentLosesItsEnd` | crates/polint/src/ignores.rs:589-609 | A concrete source whose comment text loses its last character. |
| `Directives.FirstCodeLine` | crates/polint/src/ignores.rs:620-650 | The line of the unique first code position, none if there is none; in an open block comment none, or the line of its last character when that is a single byte and no blank. |
| `Directives.AsciiBlankMeaning` | crates/polint/src/ignores.rs:620-650 | The blanks before the first code are the ASCII white space but for the vertical tab. |
| `Directives.LeadMeaning` | crates/polint/src/ignores.rs:620-650 | Every source is blanks and comments to its end, or has exactly one first code position, or exactly one open block comment after blanks and comments. |
| `Directives.NoCodeExactlyWhen` | crates/polint/src/ignores.rs:620-650 | No code is found exactly in a source of blanks and comments that does not end in an open block comment with a single-byte non-blank character. |
| `Directives.CodeLineExactlyWhen` | crates/polint/src/ignores.rs:620-650 | Unless the source ends so, the answer is the line of the first code and nothing else. |
| `Directives.OpenCommentIsTakenForCode` | crates/polint/src/ignores.rs:620-650 | A source of one open comment for which the scan reports code. |
| `Directives.FileDirectiveIsFirst` | crates/polint/src/ignores.rs:374-422 | An accepted file directive has only blanks and comments before it. |
| `Directives.FindDirectives` | crates/polint/src/ignores.rs:463-511 | The search that jumps over each prefix finds every position of a line where a directive stands. |
| `Directives.KindExactlyWhen` | crates/polint/src/ignores.rs:513-522 | A kind is recognised exactly where its name stands. |
| `Directives.DirectiveExactlyWhen` | crates/polint/src/ignores.rs:463-511 | A directive of a kind stands exactly where the line can be cut into something empty or ending in a blank, the prefix, the kind's name, and something empty or starting with a blank. |
| `Directives.CommentDirectives` | crates/polint/src/ignores.rs:463-511 | Every directive of every line of a comment is reported, and nothing else. |
| `Directives.DirectivePosition` | crates/polint/src/ignores.rs:463-511 | A directive's line is one plus the newlines before it, and its column is exact if and only if every character before it on that line of the comment is a single byte. |
| `Directives.ColumnIsOffAfterWideCharacter` | crates/polint/src/ignores.rs:463-511 | A directive after a two-byte character is reported one column too far. |
| `Fnv.ComputeStableHash` | crates/polint/src/analysis_neutral/hash.rs:6-17 | The nested loops compute 64-bit FNV-1a of the framed stream, printed as 16 hexadecimal digits. |
| `Fnv.OneLetterVector` | crates/polint/src/analysis_neutral/hash.rs:3-14 | The published FNV-1a test vector for the octet "a". |
| `Fnv.FrameExample` | crates/polint/src/analysis_neutral/hash.rs:8-15 | The separator follows every part, the last included. |
| `Fnv.HexReadsBack` | crates/polint/src/analysis_neutral/hash.rs:16-16 | The printed digits read back, from the left, as the number. |
| `Fnv.StepIsBijection` | crates/polint/src/analysis_neutral/hash.rs:9-14 | For a fixed byte a step is a bijection of the 64-bit states, with an explicit inverse. |
| `Fnv.StepSeparatesBytes` | crates/polint/src/analysis_neutral/hash.rs:9-14 | For a fixed state a step tells all bytes apart. |
| `Fnv.OneByteNeverCollides` | crates/polint/src/analysis_neutral/hash.rs:6-17 | Streams of equal length that differ in exactly one byte reach different states from any start. |
| `Fnv.NoSeparatorInUtf8` | crates/polint/src/analysis_neutral/hash.rs:9-13 | The octet 0xff never occurs in UTF-8 (section 1 of RFC 3629). |
| `Fnv.FrameInjective` | crates/polint/src/analysis_neutral/hash.rs:6-17 | Distinct lists of strings give distinct byte streams. |
| `Fnv.OneOctetAlwaysShows` | crates/polint/src/analysis_neutral/hash.rs:6-17 | Lists whose streams have equal length and differ in exactly one octet print different hashes. |
| `Capabilities.DependenciesClosed` | crates/polint/src/analysis_plan.rs:847-855 | The one-level dependency table is transitively closed. |
| `Capabilities.RequestsFollowsChains` | crates/polint/src/analysis_plan.rs:927-931 | A rule requests a capability exactly when a chain of dependencies of any length leads to it from a requested one. |
| `Capabilities.SupportedExactlyWhen` | crates/polint/src/analysis_plan.rs:857-921 | Of the names that rules can ask for (core/capability.rs:252-283) all but three are supported, and nothing else is. |
| `Capabilities.ReasonExactlyWhen` | crates/polint/src/analysis_plan.rs:857-921 | Only an unsupported capability gives a reason and documentation; the reason tells whether the name is known. |
| `Capabilities.SupportFollowsDependencies` | crates/polint/src/analysis_plan.rs:847-921 | What a supported capability depends on is supported. |
| `Capabilities.PlanCapabilities` | crates/polint/src/analysis_plan.rs:811-844 | The planned list holds, in order, one entry for each requested capability, whose rules are exactly those requesting it, in order and once. |
| `Capabilities.PlanIgnoresOrder` | crates/polint/src/analysis_plan.rs:811-833 | Plans for lists with the same rules are equal, so permuting or repeating rules changes nothing. |
| `PlanDigest.EncodeStrIsPrefixFree` | crates/polint/src/analysis_plan.rs:1026-1028 | A length-prefixed value tells where it ends, whatever follows; the prefix counts UTF-8 bytes. |
| `PlanDigest.EncodeListInjective` | crates/polint/src/analysis_plan.rs:1030-1036 | The list encoding is uniquely decodable, the empty list and the list of one empty string included. |
| `PlanDigest.PrintInjective` | crates/polint/src/analysis_plan.rs:933-1005 | A printed part determines its label and its value. |
| `PlanDigest.FieldsDetermine` | crates/polint/src/analysis_plan.rs:933-1005 | The part list determines every digested field of every rule, capability and check, and the domain request. |
| `PlanDigest.StreamDeterminesPlan` | crates/polint/src/analysis_plan.rs:933-1005 | Two plans give the same hashed stream if and only if they agree on every digested field. |
| `PlanDigest.ComputeDigest` | crates/polint/src/analysis_plan.rs:933-1005 | The push loops hash exactly that part list. |
| `PathNormalize.NormalizeRepoRelative` | crates/polint/src/repo_fs.rs:103-122 | The push and pop loop computes the normal form. |
| `PathNormalize.SeparatorsAreAlike` | crates/polint/src/repo_fs.rs:103-122 | Paths that differ only in which of the two separators they use normalise alike. |
| `PathNormalize.ResolveMeaning` | crates/polint/src/repo_fs.rs:103-122 | Normalisation fails exactly when some prefix of the segments climbs above the root, and otherwise keeps exactly the names whose directory the rest of the path never leaves, in order. |
| `PathNormalize.NormalForm` | crates/polint/src/repo_fs.rs:103-122 | The result is "." exactly at depth zero and otherwise as many plain names as the path is deep, none empty, "." or "..". |
| `PathNormalize.Idempotent` | crates/polint/src/repo_fs.rs:103-122 | Normalising a normal form changes nothing. |
| `PathNormalize.SameFormSamePlace` | crates/polint/src/repo_fs.rs:103-122 | Two paths have one normal form exactly when they resolve to one place. |
| `PathNormalize.NormalizeJoin` | crates/polint/src/repo_fs.rs:103-122 | A joined path normalises as the join of the normalised first half with the second, and fails when the first half fails. |

## Left out

- Values of arguments bound by projection extension or by a must alias: the value claims are about one place on both sides.
- File modes, `canonicalize`, parent-directory walking and the non-Unix branches of `repo_fs.rs`: only the directory-level effect of each Unix call is kept.
- A failing metadata call on the open descriptor of a displaced directory: the model opens and identifies it in one call.
- `normalize_path` and `normalize_repo_relative_input`: the same stack over platform path components.
- Lifecycle (post-dominator) queries: the same relation lookup with the roles of the blocks exchanged.
- Ordering control-flow events, matching call patterns, capping and de-duplicating the sites of guard queries: inputs of the model or one-branch filters.
- Data-flow queries and the taint solver behind them.
- Sorting and de-duplicating diagnostics, and sorting the directives of all files, before ignores are applied: the model starts from the resulting lists.
- Parsing of a directive's selectors and reason; summaries by rule and by file; report filters.
- YAML beyond the version line, the two sections and single-quoted items: a library parses it.
- Layer store internals, the canonical metrics projection and the fact conversion: abstract functions with stated assumptions.
- Sorting of rules before a plan is built, and setup checks beyond their digested fields.
- Evidence and label strings, human rendering, JSON wire types, timing, job pools and subprocesses.
