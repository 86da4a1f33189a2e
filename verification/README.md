# Verified models of OmniAgentOS

Dafny models of the parts of OmniAgentOS whose correctness depends on interleavings,
nesting, fixed points or exact counting, with proofs of what those parts promise.
`dafny verify dfyconfig.toml` checks everything.

| file | component | main results |
|---|---|---|
| `ParkProtocol.dfy` | parking, recovery and refusal in `_run_adapter` | the in-flight-witness invariant over every interleaving; every answer heeded in every interleaving; protocol caller, code and reference call proved to be one thing; progress; the exact truth of the "at every instant" claim |
| `TxnScopes.dfy` | `atomic` / `discarded` over SQLite savepoints | refinement to all-or-nothing semantics under every placement of statement failures and aborts; exactly which programs keep the promise |
| `LaneGlobs.dfy` | segment globs and the ownership ceiling | matcher equals its declarative meaning; which required globs make the ceiling sound, exactly |
| `Supervisor.dfy` | restart budget and shutdown | every exit is answered by one logged restart and no window exceeds the budget over any run; grace period, escalation and what a successful `stop_all` proves |
| `PathContainment.dfy` | inode containment | meaning of every decision, exactly when containment composes, exactly when the two forms agree, what path identity means |
| `Reachability.dfy` | re-export and mount closures | worklists compute exactly reachability; canonicalization is idempotent |
| `QueueImport.dfy` | the queue importer | a second import is a no-op on the board, exactly what it skips, refuses and creates again, and exactly when it exits clean; a dry run plans the real run |
| `Certification.dfy` | certification evidence | completeness decided exactly; the manifest adds nothing to it |
| `CostDecimal.dfy` | nano-USD text | exact value, round trip, cross-check |
| `Alerts.dfy` | once-a-day paging | the exact number of deliveries per key, crashes included |

## How the models are built

**Park protocol.** `parked.json` is a shared map. Each caller has a program counter; every
locked read-modify-write is one step and every `get_parked_reason` is one unlocked read.
A schedule is any sequence of steps of any number of callers, arrivals, crashes and writes
to unrelated keys. `Rely` is what a step of anybody can do to the map, and the class
`ParkedFile` holds the code of one call in its own form, with arbitrary rely-respecting
interference before every access, or none at all if the call is `alone`. `Adapter` is the whole
effect of an undisturbed call; both the code and a caller of the protocol are proved to have it.

**Transaction scopes.** A program is a tree of writes, raises, sequences, handlers and
scopes. Every SQL statement carries the fault that waits for it: none, a plain failure, or
one that takes the whole transaction with it. `Run` is the connection (visible database,
durable database, savepoint stack), `Ref` the two-line meaning of the scopes, and the class
`Connection` the statements in imperative form. `Fates` computes from the program alone, without
its faults, every way a run can end; `RunMeetsFate` and `Realize` show that these are exactly the
ends that some placement of faults produces.

**Supervisor.** The clock, the probes, the signals and the waits are nondeterministic; every
interaction of a shutdown, clock readings included, is appended to an event trace and the
guarantees are stated over that trace. The full restart log has one entry per restart made.

**Path containment.** A snapshot answers `lstat`, `stat` and `realpath`. `ValidFs` lists what
any snapshot satisfies; two concrete ones, with a hard link and with a symlink, are shown to
satisfy it and carry the counterexamples.

## Where the code and its description part

- `improvement_chain.py:376-383` and `915-920` say that "every account parked" implies "stage
  record present" at every instant. There is a window between parking the last account and
  parking the stage. `InstantClaimExactly` proves that the claim holds over all crash-free runs
  if and only if every account is parked to begin with; `GapAlwaysHasWitness` and `GapIsClosed`
  prove what holds instead.
- `cognitive_txn.py:86-87` says that a caller never sees success for a write that did not
  become durable. `_undo` hides its own failure, so a nested `discarded` block whose ROLLBACK TO
  fails lets the enclosing `atomic` return normally with earlier writes lost
  (`DiscardedUndoFailureLosesWrites`); a handler that swallows an abort breaks atomicity too
  (`SwallowedAbortBreaksAtomicity`). `AllOrNothingExactly` proves that the promise holds under
  every placement of faults, after all writes made before in the same scope and from every
  database, if and only if the shape of the program is `Safe`: no run that loses the transaction
  returns or writes afterwards. That is decided from the program alone, once for undo statements
  that may fail and once for undo statements that work. "Always rolled back" (`:108`) needs less:
  `DiscardedExactly` proves that it holds if and only if no run writes after the loss.
- `lane_done.py:313-318` calls the coverage test a heuristic. `StarCeilingExactly` proves for
  required globs made of plain text, one star beside plain text (`feature.*`, `*.py`), `*` and `**`
  that it is sound if and only if the glob has no bare `*` or is one `*` among `**`s.
- `path_containment.py:83` stats the root as written while `:32` and `:87` normalize lexically, so
  the two decision forms disagree for the root `/l/..` when `/l` is a symlink to `/d/s`
  (`LinkedRootDisagrees`). `AnchoredAgreesExactly` proves that they agree wherever the plain form
  decides if and only if both readings of the root text lead to the same inode.
- Containment and identity are decided by inode, so a file with two names is one place
  (`HardLinkBreaksComposition`, `HardLinksAreEqual`). `ContainmentComposesExactly` proves that
  containment composes through b if and only if b's inode stands at the same place below c under
  every name, and `EqualMeansSameLocation` what a decided identity means in general.
- `_alert_once` delivers once unless a process dies between the send and the write
  (`DeathPagesTwice`); `AtMostOnceExactly` gives the condition.
- `import-reset-queue.py:354` looks a task up by its reference as written while the store keeps a
  normalized one (`omniagentos/collab/store.py:516-530`), so "a task is skipped on an existing ref"
  (`:12-13`) and exit status 0 for a second run (`:24`) hold only for references in the store's
  spelling: "u3", stored as "U3", is refused the second time (`LowerCaseIsRefused`).
  `SecondRunSkipsExactly` says which cards are skipped, `SecondRunIsCleanExactly` when the second run
  is clean, and `SecondRunRecreatesBlanks` when it creates the cards without a reference again.

## Model

| member | source | states |
|---|---|---|
| ParkProtocol.ClearOnRecovery | omniagentos/improvement_chain.py:390-430 | the guarded clear never opens the all-parked-without-stage gap, and is the identity while every account is parked |
| ParkProtocol.MostRecent | omniagentos/improvement_chain.py:820-820 | the record chosen for the stage is one of those read and none is newer |
| ParkProtocol.MostRecentIsFirst | omniagentos/improvement_chain.py:820-820 | among equally new records the first one is chosen |
| ParkProtocol.StepWithinRely | omniagentos/improvement_chain.py:305-430 | every action of every process, crashes included, only accumulates account records and keeps the stage record while all accounts are parked |
| ParkProtocol.RunWithinRely | omniagentos/improvement_chain.py:305-430 | the same over every schedule: parked accounts only grow |
| ParkProtocol.InterleavingsKeepInv | omniagentos/improvement_chain.py:969-1007 | the whole invariant over every crash-free interleaving of any number of callers |
| ParkProtocol.AnswersAreHeeded | omniagentos/improvement_chain.py:969-1007 | in every interleaving, crashes included: accounts are visited one after the other, a retryable answer moves on, a terminal one parks its account, and only a definite one leads to recovery |
| ParkProtocol.StageGoesOnlyOnRecovery | omniagentos/improvement_chain.py:420-430 | the stage record disappears only behind a definite answer and while some account is unparked |
| ParkProtocol.ReplyComesLast | omniagentos/improvement_chain.py:980-1007 | a call ends with the provider's reply only after a definite answer, or after every account was called or is parked |
| ParkProtocol.CrashIsFinal | omniagentos/improvement_chain.py:969-1007 | a caller that crashes before it is done takes no further step, whatever the others do |
| ParkProtocol.UndisturbedCall | omniagentos/improvement_chain.py:964-1007 | a caller that takes only its own steps ends with exactly the calls, answers, map and reply of the reference call |
| ParkProtocol.OwnStepsAreARun | omniagentos/improvement_chain.py:964-1007 | and those steps are a schedule of the protocol in which nobody else moves |
| ParkProtocol.GapAlwaysHasWitness | omniagentos/improvement_chain.py:801-838 | whenever all accounts are parked and the stage record is absent, a caller that parked an account is on its way to the stage park; neither assertion of the code can fail |
| ParkProtocol.QuiescentMeansStageParked | omniagentos/improvement_chain.py:995-1007 | once every caller has returned, all accounts parked implies the stage record is present |
| ParkProtocol.NoCallAfterPark | omniagentos/improvement_chain.py:969-990 | an account is handed to the provider by no visit whose check follows its park, in any interleaving, crashes allowed |
| ParkProtocol.FallbackIsRefused | omniagentos/improvement_chain.py:849-875 | a call that cannot inspect the accounts is refused when all are parked and nobody is inside the window |
| ParkProtocol.StageNamesNewestAccount | omniagentos/improvement_chain.py:813-833 | the stage is parked with the outcome of the newest account record; the default outcome is dead code |
| ParkProtocol.RefusingRun | omniagentos/improvement_chain.py:951-1005 | with everything parked a caller makes no call and finishes in a fixed number of its own steps, whatever the others do |
| ParkProtocol.AllParkedCallRefuses | omniagentos/improvement_chain.py:951-1005 | a call that arrives when all accounts are parked makes no provider call and ends with the stage record present, also after earlier crashes |
| ParkProtocol.GapIsClosed | omniagentos/improvement_chain.py:827-835 | in the gap some caller is already committed: after its remaining steps the stage is parked in every interleaving |
| ParkProtocol.InstantClaimExactly | omniagentos/improvement_chain.py:376-384 | "all parked implies stage present at every instant" holds over all crash-free runs if and only if all accounts are parked at the start |
| ParkProtocol.GapSchedule | omniagentos/improvement_chain.py:907-920 | from any start with an unparked account a crash-free schedule reaches the gap |
| ParkProtocol.ParkedFile.GetParkedReason | omniagentos/improvement_chain.py:349-352 | an unlocked read of the current map after arbitrary interference |
| ParkProtocol.ParkedFile.ParkComponent | omniagentos/improvement_chain.py:331-336 | one atomic update of the map some interference led to |
| ParkProtocol.ParkedFile.ClearStageOnRecovery | omniagentos/improvement_chain.py:420-430 | one atomic re-verify and delete on the map some interference led to |
| ParkProtocol.ParkedFile.MaybeRecoveryCandidate | omniagentos/improvement_chain.py:385-387 | never a candidate when all accounts were parked on entry, under interference; without it, a candidate exactly when the stage is parked and some account is not |
| ParkProtocol.ParkedFile.AllAccountsParkedResult | omniagentos/improvement_chain.py:812-838 | leaves all accounts and the stage parked, the read-back assertion proved in place; without interference a missing stage record takes the outcome of the newest account record |
| ParkProtocol.ParkedFile.RotateAccounts | omniagentos/improvement_chain.py:969-993 | only accounts unparked on entry are called, the records written are exactly those of the terminal answers, only the last answer ends the loop, a definite one clears the stage unless all are parked; without interference exactly the reference rotation |
| ParkProtocol.ParkedFile.VisitAccount | omniagentos/improvement_chain.py:970-993 | one turn of the loop: a parked account is skipped, a terminal answer parks its account with its own outcome, a definite one runs the guarded clear |
| ParkProtocol.ParkedFile.ConfirmAllParked | omniagentos/improvement_chain.py:1004-1004 | true exactly if all are parked at its end, and true if they were on entry |
| ParkProtocol.ParkedFile.RunAdapter | omniagentos/improvement_chain.py:964-1007 | the whole call under interference: calls made, records written, refusals and both assertions; an exhausted rotation answers only if some account is unparked, and a gap is left only behind a definite answer and never by a call left alone; without interference exactly the reference call, map, calls and reply |
| TxnScopes.OpenRun | omniagentos/cognitive_txn.py:81-114 | inside a transaction, at any depth and for any faults: exactly the reference, or the transaction is gone and the error is on its way out |
| TxnScopes.ClosedRun | omniagentos/cognitive_txn.py:81-114 | from a closed connection: durable database and raise-or-return result equal the reference, no transaction left open |
| TxnScopes.NestedScopesRefine | omniagentos/cognitive_txn.py:49-78 | inside a transaction, nested scopes with arbitrary, repeated names change only the visible database, as the reference does; savepoint stack and flag are as on entry |
| TxnScopes.ContainedScopesRefine | omniagentos/cognitive_txn.py:49-114 | the same from a closed connection, handlers of database errors included |
| TxnScopes.UndoNested | omniagentos/cognitive_txn.py:58-78 | undoing a nested scope restores its entry state exactly or rolls the whole transaction back |
| TxnScopes.OutermostScope | omniagentos/cognitive_txn.py:89-103 | raised means nothing durable, returned means everything kept is durable, if no loss was swallowed |
| TxnScopes.AllOrNothing | omniagentos/cognitive_txn.py:82-103 | a safe shape keeps the promise wherever a statement fails or the transaction is aborted: raised means nothing durable, returned means everything kept is durable, nothing left open |
| TxnScopes.AllOrNothingExactly | omniagentos/cognitive_txn.py:82-103 | exactly the safe shapes keep the promise under every placement of faults, after every sequence of writes and from every database |
| TxnScopes.UnsafeBreaks | omniagentos/cognitive_txn.py:86-87 | every other shape has a placement of faults that breaks the promise after at most one write |
| TxnScopes.DiscardedExactly | omniagentos/cognitive_txn.py:106-114 | an outermost `discarded` leaves the connection as it was, under every placement of faults and from every database, if and only if no fate writes after a loss |
| TxnScopes.KeptIsReference | omniagentos/cognitive_txn.py:81-114 | whatever fails and is caught, a transaction that is still open is exactly the reference's |
| TxnScopes.RunMeetsFate | omniagentos/cognitive_txn.py:49-114 | every run ends in one of the fates computed from the shape |
| TxnScopes.Realize | omniagentos/cognitive_txn.py:49-114 | every computed fate is the end of some placement of faults, from every connection |
| TxnScopes.PropagatesNeverSwallows | omniagentos/cognitive_txn.py:58-78 | with handlers that let database errors through (and, if undo statements may fail, no handler around a scope and no nested `discarded`), no loss goes unnoticed, so that the refinement holds error for error |
| TxnScopes.LossIsDatabaseError | omniagentos/cognitive_txn.py:61-64 | such shapes are safe, and with working undo statements only a database error can have cost the transaction |
| TxnScopes.SwallowedAbortBreaksAtomicity | omniagentos/cognitive_txn.py:86-87 | a handler that swallows an abort makes a raising scope leave a durable write |
| TxnScopes.SwallowedAbortIsUnsafe | omniagentos/cognitive_txn.py:86-87 | its shape is unsafe although every undo works |
| TxnScopes.DiscardedUndoFailureLosesWrites | omniagentos/cognitive_txn.py:106-114 | a failing undo of a normally returning `discarded` block makes the outer scope return with its writes lost |
| TxnScopes.DiscardedUndoIsUnsafe | omniagentos/cognitive_txn.py:58-78 | a nested probe that can return is unsafe once undo statements may fail, and safe while they work |
| TxnScopes.LastSave | omniagentos/cognitive_txn.py:67-69 | the most recent savepoint of that name |
| TxnScopes.ValidNameGrows | omniagentos/cognitive_txn.py:40-46 | which texts are scope names, letter by letter |
| TxnScopes.SameSavepoint | omniagentos/cognitive_txn.py:67-69 | two names denote one savepoint exactly if they agree letter by letter, capitals aside |
| TxnScopes.Connection.OpenScope | omniagentos/cognitive_txn.py:49-55 | `_begin` on the connection object |
| TxnScopes.Connection.UndoScope | omniagentos/cognitive_txn.py:58-78 | `_undo` on the connection object |
| TxnScopes.Connection.CloseScope | omniagentos/cognitive_txn.py:96-100 | RELEASE or COMMIT, with its failures |
| TxnScopes.Connection.Execute | omniagentos/cognitive_txn.py:81-114 | the two context managers as they nest around client code |
| LaneGlobs.MatchIffSplit | scripts/lane_done.py:273-287 | the recursive matcher is exactly "the pattern segments split the path" |
| LaneGlobs.CoverageTransfers | scripts/lane_done.py:304-320 | with sound required segments, coverage of the pattern text carries over to every file the pattern matches |
| LaneGlobs.LiteralMatches | scripts/lane_done.py:285-286 | a metacharacter-free segment matches itself only |
| LaneGlobs.OneStarMatches | scripts/lane_done.py:285-286 | one star between plain texts matches exactly what starts and ends with them |
| LaneGlobs.OneStarIsSound | scripts/lane_done.py:313-318 | such a segment, not a bare star, is sound as a required segment |
| LaneGlobs.CeilingEnforced | scripts/lane_done.py:692-720 | nothing reported outside and every changed file declared implies every changed file matches a required glob |
| LaneGlobs.StarCeilingExactly | scripts/lane_done.py:304-320 | for plain text, one star beside plain text, `*` and `**` the ceiling holds for every non-empty file if and only if there is no bare `*`, or one `*` among `**`s |
| LaneGlobs.OutsideRequired | scripts/lane_done.py:320-320 | reports exactly the declared patterns that no required glob matches as text |
| LaneGlobs.Components | scripts/lane_done.py:296-296 | path components without empty and "." ones and without slashes |
| LaneGlobs.ComponentsSplit | scripts/lane_done.py:296-296 | a slash separates the components before it from those after it |
| LaneGlobs.TextSplits | scripts/lane_done.py:296-296 | joined components come back one by one |
| LaneGlobs.RootedParts | scripts/lane_done.py:296-296 | one, two and three leading slashes |
| LaneGlobs.TextMatches | scripts/lane_done.py:290-297 | path text is matched component by component |
| LaneGlobs.CeilingOnComponents | scripts/lane_done.py:692-720 | the ceiling on files and patterns given by their components |
| LaneGlobs.BracketMatches | scripts/lane_done.py:285-286 | what a bracket expression takes, with a leading `!` or `]` |
| LaneGlobs.OpenBracketAndAnyMatch | scripts/lane_done.py:285-286 | an unclosed bracket is an ordinary character, `?` takes any one |
| LaneGlobs.LaneReceipt.CheckOwnership | scripts/lane_done.py:692-722 | admitted exactly when both ownership checks pass, the receipt entries, and the ceiling it enforces |
| Supervisor.PrunedDecidesAlike | scripts/process_supervisor.py:390-393 | the pruned history selects the same recent restarts as the full log at any later time |
| Supervisor.AllowedKeepsSpaced | scripts/process_supervisor.py:407-418 | an allowed restart keeps any budget + 1 successive restarts a window apart, although it is stamped after the check |
| Supervisor.WindowHoldsBudget | scripts/process_supervisor.py:380-393 | no window of the configured length, wherever it starts, holds more restarts than the budget |
| Supervisor.AllowedMeansRoom | scripts/process_supervisor.py:388-393 | a restart is allowed exactly if the window that ends now holds fewer restarts than the budget |
| Supervisor.BooksRecorded | scripts/process_supervisor.py:407-419 | one allowed restart keeps every child's bookkeeping sound and the full log equal in length to the restarts made |
| Supervisor.ProcessSupervisor.RestartAllowed | scripts/process_supervisor.py:380-393 | answers exactly as the full restart log would, and drops exactly the expired entries of this child |
| Supervisor.ProcessSupervisor.RecordRestart | scripts/process_supervisor.py:418-419 | the restart is stamped once in the history, the full log and the restart log, and the bookkeeping stays sound |
| Supervisor.ProcessSupervisor.ReplaceChild | scripts/process_supervisor.py:407-433 | an exited child is replaced inside its budget, with exactly one stamp in the full log and one restart logged, its old group swept, or refused by the full log |
| Supervisor.ProcessSupervisor.ReconcileChildren | scripts/process_supervisor.py:395-435 | every exit before the failure is answered by exactly one logged and stamped restart, nobody else is touched, the failure is one the full log forbids |
| Supervisor.ProcessSupervisor.Supervise | scripts/process_supervisor.py:448-451 | over a whole run the restarts made are exactly the exits seen, each is in the full log, and every child keeps its budget in every window |
| Supervisor.ProcessSupervisor.SignalPass | scripts/process_supervisor.py:499-513 | the signal goes to every group in reverse order, whatever fails |
| Supervisor.ProcessSupervisor.AwaitTerm | scripts/process_supervisor.py:502-507 | terminates; returns only when two clock readings are the timeout apart or every group was shown dead; between two readings every leader is polled and some group found not dead; signals nobody |
| Supervisor.ProcessSupervisor.ProbeAll | scripts/process_supervisor.py:509-511 | one probe per child in order; the survivors are exactly those not shown dead |
| Supervisor.ProcessSupervisor.AwaitKill | scripts/process_supervisor.py:515-522 | terminates; whoever is dropped was shown dead, and somebody is left only when two clock readings are the timeout apart; between two readings every leader is polled and everybody left found not dead; signals nobody |
| Supervisor.ProcessSupervisor.FinishStop | scripts/process_supervisor.py:515-552 | every survivor shown dead or waited for, turn by turn, until the timeout and probed again, leaders waited for, exactly those not shown dead recorded, logs closed, nobody signalled |
| Supervisor.ProcessSupervisor.StopAll | scripts/process_supervisor.py:453-555 | the whole shutdown: SIGTERM to all, the grace period, SIGKILL to exactly the groups not shown dead and no other signal, the second wait, reaping, closing; success exactly if every signal, probe, poll, reap and close went well and nobody is left over, the errors naming exactly what did not; then every group was shown dead, every leader reaped, every log closed |
| Supervisor.StopReports | scripts/process_supervisor.py:464-555 | which error is recorded for which trouble, kind by kind, and that there is none exactly if all went well |
| PathContainment.Nearest | omniagentos/path_containment.py:35-46 | an existing ancestor of the path |
| PathContainment.NearestExisting | omniagentos/path_containment.py:30-46 | the loop computes the nearest existing ancestor |
| PathContainment.AncestorWalk | omniagentos/path_containment.py:108-123 | the upward walk with its accumulated parts |
| PathContainment.RelativePartsDecision | omniagentos/path_containment.py:69-123 | both walks as loops compute the decision |
| PathContainment.DetourVanishes | omniagentos/path_containment.py:87-87 | a component followed by ".." can be left out anywhere in a text |
| PathContainment.NothingVanishes | omniagentos/path_containment.py:32-32 | ".." at the top, "." and empty components mean nothing |
| PathContainment.RelativeText | omniagentos/path_containment.py:32-32 | a relative text is read from the working directory |
| PathContainment.DetourDecidesAlike | omniagentos/path_containment.py:69-123 | no decision depends on detours in the candidate's text |
| PathContainment.WalkUpInside | omniagentos/path_containment.py:108-123 | "inside by these parts" exactly for the lowest ancestor with the inode |
| PathContainment.InsideMeans | omniagentos/path_containment.py:114-118 | a positive decision: the canonical location is reached from the root's inode by exactly the parts |
| PathContainment.OutsideMeans | omniagentos/path_containment.py:119-121 | a negative decision if and only if every canonical ancestor was seen and none has the root's inode |
| PathContainment.ContainmentComposesExactly | omniagentos/path_containment.py:49-123 | for b in c: composition through b holds for every a if and only if every canonical path with b's inode is inside c by the same parts |
| PathContainment.ContainmentComposes | omniagentos/path_containment.py:49-123 | a in b by p and b in c by q gives a in c by q + p, for a directory b read alike by kernel and text |
| PathContainment.HardLinkBreaksComposition | omniagentos/path_containment.py:114-118 | through a hard-linked file composition fails |
| PathContainment.AnchoredExtendsPlain | omniagentos/path_containment.py:154-170 | the anchored decision equals the plain one wherever that decides, and differs only where the root cannot be statted |
| PathContainment.AnchoredAgreesExactly | omniagentos/path_containment.py:154-198 | for every root, the two agree wherever the plain one decides if and only if kernel and lexical reading of the root text agree, or the plain one never decides |
| PathContainment.AnchoredMeans | omniagentos/path_containment.py:154-198 | inside by exactly the parts that lead from the root's canonical location to the candidate's, missing roots included |
| PathContainment.DishonestRootDisagrees | omniagentos/path_containment.py:154-198 | a root whose two readings differ has a candidate on which both forms decide apart or only the plain one decides |
| PathContainment.LinkedRootDisagrees | omniagentos/path_containment.py:83-87 | on a valid snapshot with a symlink the plain form says outside and the anchored one inside |
| PathContainment.EqualMeansSameLocation | omniagentos/path_containment.py:126-151 | a decided identity is true exactly when the existing parts are one inode and the same components are missing; for a directory that is equality of the canonical locations |
| PathContainment.HardLinksAreEqual | omniagentos/path_containment.py:126-151 | two hard links are equal although their locations differ |
| Reachability.Origins | scripts/reachability-gate.py:376-385 | exactly the import-from statements that bind the name and have an origin |
| Reachability.ExportTerminals | scripts/reachability-gate.py:350-388 | terminates on cycles and returns exactly the reachable terminals |
| Reachability.FollowImports | scripts/reachability-gate.py:367-387 | reading one module: nowhere if it is unreadable or defines the name, otherwise along every import-from that binds it |
| Reachability.ParseIdentity | scripts/reachability-gate.py:393-393 | an identity splits back into its module and name |
| Reachability.TerminalsOfTerminal | scripts/reachability-gate.py:367-387 | from a terminal only that terminal is found |
| Reachability.CanonicalIdempotent | scripts/reachability-gate.py:391-395 | canonicalizing twice is canonicalizing once |
| Reachability.CanonicalMeans | scripts/reachability-gate.py:391-395 | the one definition its re-exports lead to, or the identity itself if there are none or several |
| Reachability.CanonicalIdentity | scripts/reachability-gate.py:391-395 | computed from the walk |
| Reachability.Sweep | scripts/reachability-gate.py:732-736 | one sweep grows the set strictly or finds it closed, and stays inside every closed bound |
| Reachability.MountedRouters | scripts/reachability-gate.py:729-737 | exactly the routers on a mount chain whose first edge is owned by an application |
| Reachability.UnservedGroupContributesNothing | scripts/reachability-gate.py:669-672 | aggregators mounted only among themselves are not mounted |
| QueueImport.GoalsReplay | scripts/import-reset-queue.py:208-272 | replaying the goals writes and creates nothing, and the reference maps have equal domains |
| QueueImport.GoalsAreOrdered | scripts/import-reset-queue.py:221-221 | the file's goals, long-term first, otherwise in the file's order |
| QueueImport.TasksAreOrdered | scripts/import-reset-queue.py:345-347 | the file's tasks, parentless first, otherwise in the file's order |
| QueueImport.ChildFindsItsParent | scripts/import-reset-queue.py:18-22 | whatever order the file has, a child whose parent was found, made or planned is never refused for its parent |
| QueueImport.ReplayCase | scripts/import-reset-queue.py:350-435 | in the second run an entry with a reference is never inserted |
| QueueImport.SecondRunCreatesNothingReferenced | scripts/import-reset-queue.py:463-515 | a second import creates no goal and no referenced task, and leaves both tables as they were |
| QueueImport.SecondRunIsNoOp | scripts/import-reset-queue.py:463-515 | without blank references the second import changes nothing at all, evidence and verification included |
| QueueImport.SecondRunRecreatesBlanks | scripts/import-reset-queue.py:403-435 | it creates again exactly the blank-reference cards if and only if the first run made none under a parent in another spelling |
| QueueImport.SecondRunSkipsExactly | scripts/import-reset-queue.py:12-16 | of the referenced cards the first run made, the second skips exactly those whose reference is in the store's spelling and refuses the others |
| QueueImport.SecondRunIsCleanExactly | scripts/import-reset-queue.py:24-26 | after a clean run without blank references the second is clean if and only if every task reference is in the store's spelling |
| QueueImport.LowerCaseIsRefused | omniagentos/collab/store.py:516-534 | a file with "u3" is created as "U3" and refused when imported again |
| QueueImport.NormalRefIsStable | omniagentos/collab/store.py:533-534 | normalizing a reference twice is normalizing it once |
| QueueImport.ReconcileSettles | scripts/import-reset-queue.py:275-328 | after reconciling, the card's evidence is claimed and the card verified, unless another card holds it or verification refuses |
| QueueImport.SettledIsLeftAlone | scripts/import-reset-queue.py:295-328 | reconciling a settled card changes and repairs nothing |
| QueueImport.DryRunPlansTheRealRun | scripts/import-reset-queue.py:245-248 | when the store accepts every entry, a dry run plans exactly what a real run creates, in order, and writes nothing; references may be in any spelling that is not on the board in another one |
| QueueImport.Importer.ImportGoal | scripts/import-reset-queue.py:225-271 | the branches of one goal entry, with their lookups, writes and result lists, have exactly the effect of its case |
| QueueImport.Importer.ImportTask | scripts/import-reset-queue.py:350-425 | the branches of one task entry have exactly the effect of its case |
| QueueImport.Importer.ReconcileBaseline | scripts/import-reset-queue.py:290-328 | evidence, verification, repairs and the error of one card, in the order the code makes them |
| QueueImport.Importer.SkipTask | scripts/import-reset-queue.py:354-373 | a card that is there is adopted and, in a real run, reconciled |
| QueueImport.Importer.CreateTask | scripts/import-reset-queue.py:403-460 | the insert and the reconciliation that follows it |
| QueueImport.Importer.RunImport | scripts/import-reset-queue.py:495-515 | goals, then tasks; a dry run leaves the database alone |
| Certification.OutcomeByPrecedence | scripts/certification_pytest_plugin.py:104-113 | the recorded outcome is failed over skipped over passed over nothing |
| Certification.OutcomesIgnoreOrder | scripts/certification_pytest_plugin.py:104-113 | any reordering of the reports records the same outcomes |
| Certification.Plugin.Deselected | scripts/certification_pytest_plugin.py:87-97 | every deselected item is recorded with its forbidden markers, the last report winning |
| Certification.Plugin.RunLogReport | scripts/certification_pytest_plugin.py:104-113 | one report on the plugin's state |
| Certification.OwnedCountsSum | scripts/certification_evidence.py:303-314 | per-path counts sum to the number of tests when each has one owner |
| Certification.OwnedPathsAreDistinct | scripts/certification_evidence.py:316-320 | paths that each own a test uniquely are listed once |
| Certification.TallyExpected | scripts/certification_evidence.py:303-310 | the expected counts, and a problem exactly when some test lacks a unique owner |
| Certification.TallyPassed | scripts/certification_evidence.py:311-314 | the passed counts |
| Certification.CompareInventories | scripts/certification_evidence.py:240-347 | complete if and only if both inventories are readable and agree, every selected test has one owner and passed, and every path owns one |
| Certification.ReadInventory | scripts/certification_evidence.py:213-231 | no error exactly if the inventory conserves, is disjoint, gives reasons and deselects only under the marker |
| Certification.NodeFileSplits | scripts/certification_evidence.py:89-90 | the file of a test id is what stands before the first "::" |
| Certification.BelongsToExactly | scripts/certification_evidence.py:93-98 | a `.py` path owns its own tests, any other path those of itself and below, trailing slashes aside |
| Certification.CompleteConserves | scripts/certification_evidence.py:226-229 | complete implies that what either run collected is what the other selected plus what it deselected, distinct paths, and equal counts that sum to the tests |
| Certification.Certify | scripts/certification_evidence.py:365-389 | certified if and only if the run is clean, a path was requested and the comparison is complete |
| CostDecimal.AcceptedExactly | omniagentos/contracts.py:964-986 | accepted exactly: a plain decimal with at most nine fractional digits, text kept |
| CostDecimal.WholePartsArePrinted | omniagentos/contracts.py:917-920 | in ASCII the whole parts are exactly the printed natural numbers |
| CostDecimal.ParseIsExact | omniagentos/contracts.py:987-991 | the nanos are exactly the denoted number times 10^9, for any magnitude |
| CostDecimal.SameNanosSameNumber | omniagentos/contracts.py:964-991 | equal nanos if and only if the texts denote the same number |
| CostDecimal.RoundTrip | omniagentos/db/store.py:724-728 | printing an amount and parsing it returns the amount |
| CostDecimal.PrintIsInjective | omniagentos/db/store.py:724-728 | different amounts print differently |
| CostDecimal.CostObservation.CrossCheck | omniagentos/contracts.py:1113-1155 | accepted exactly when text, nanos and quality fit; missing nanos are filled in from the text |
| Alerts.KeyIsInjective | omniagentos/improvement_chain.py:246-247 | the joined key determines component, signature and day when the last two have no colon |
| Alerts.ColonInSignatureCollides | omniagentos/improvement_chain.py:246-247 | with a colon in the signature two alerts share a key |
| Alerts.KeysCollideExactly | omniagentos/improvement_chain.py:246-247 | two signature and day pairs share a key for some components if and only if one's text behind the component ends with the other's |
| Alerts.DeliveredExactly | omniagentos/improvement_chain.py:254-302 | over any interleaving, crashes included: the exact number of deliveries of each alert, and exactly when its key is recorded |
| Alerts.AtMostOnceExactly | omniagentos/improvement_chain.py:262-299 | at most one delivery if and only if no section died over the alert before the first survivor, or one did and none survived |
| Alerts.ExactlyOnce | omniagentos/improvement_chain.py:262-281 | without deaths, exactly one delivery if any section could deliver, and the key recorded exactly then |
| Alerts.DeathPagesTwice | omniagentos/improvement_chain.py:294-299 | a death after the send pages twice |
| Alerts.AlertLog.AlertOnce | omniagentos/improvement_chain.py:286-302 | the locked section: true only if delivered and recorded, an undelivered page stays eligible |

## Left out

- Provider adapters, Slack, subprocesses, git, JSON, YAML and pytest themselves: their results are parameters or nondeterministic.
- A `parked.json` that cannot be read or decoded, which the code treats as empty (`improvement_chain.py:232-239`): reads always see the last written map.
- `clear_parked_reason` running concurrently: an operator clear is not among the actions.
- The alert calls inside the park protocol: they touch no key of `parked.json` and are modelled separately.
- `connection.rollback()` is taken to succeed; explicit BEGIN, COMMIT or SAVEPOINT statements issued by client code, and other connections, are not modelled.
- Membership in a bracket expression of `fnmatch` is a parameter; only where the bracket ends is modelled.
- The other checks of `_run_checks` (claim SHAs, database path, serving root).
- `wait_until_healthy` and the health probes: deadline polling around `_reconcile_children`.
- Process groups that were already replaced by a restart: `stop_all` tracks only the current roster.
- `acquire_runtime_lock`: reading, probing and unlinking the lock are not one atomic step.
- Exceptions other than those the code names in `stop_all` (`OSError` from a signal or close, `TimeoutExpired` or `OSError` from a wait, anything from a probe or poll).
- `~` expansion, a leading `//`, and filesystems with bind mounts: a directory has one canonical path.
- Symbolic links as data: `realpath` is an answer of the snapshot, not computed.
- AST walking and import syntax in the reachability gate: the import graph and the mount edges are given.
- The importer's preflight, warnings, title and description texts, the race in which another writer inserts a reference between check and insert, and a failing owned-paths update.
- QueueImport.NormalRefIsStable: the concrete normalizer covers ASCII text; the theorems hold for every stable normalizer.
- The inventory checks on schema, mode, exit code, selectors, environment and producer: one parameter each side; the per-claim evidence table of the manifest.
- The interpreter's limit on the number of digits `int` and `str` convert.
- Lease tables, fleet ledgers, gate surfaces, dashboards and benchmarks: small tables, rendering or measurement.
