# pux, verified

A Dafny model of the package manager pux and proofs about it. The model follows
the program component by component: what the program updates in place is a class
or an array here and its loops are loops, each proved against a function or a
predicate; the properties are lemmas about those.

- `Version`, `VersionScan`, `VersionOrder`: the version comparators. Each loop
  computes a walk over a list of parts; the walk is lexicographic order.
- `Package`, `Requirements`, `Database`, `UpgradeChecks`, `Expressions`, `Closure`:
  manifests, dependency expressions and what their texts demand, the records of
  installed packages, the checks on them, and what each change does to the promise
  that all dependencies are met.
- `Tree`, `Collect`, `Stored`, `Staging`, `Transaction`, `Effects`, `History`,
  `Acceptance`: the
  live file tree, collecting a payload, records as they read back, and install,
  remove and upgrade with their rollbacks as methods of `Transaction.Engine`; what
  they do to the tree; what holds in every state of every run, and which transactions
  are accepted in such a state.
- `Search`, `Resolver`, `Solutions`, `Plans`, `WrittenPlans`, `Choices`,
  `InstallPlan`: the backtracking resolver as a function and as methods on its
  selection array, what its plans satisfy, and the loop that installs a plan.
- `Arithmetic`, `Text`, `ManifestText`, `ManifestSize`, `RecordText`, `IndexText`,
  `TextLayout`, `IndexLayout`: the printers and parsers of manifests, database records and the
  repository index, and the formats spelled out.
- `Ustar`, `UstarHeader`, `Archive`, `ArchiveRoundTrip`, `ArchiveSafety`, `ArchiveLayout`:
  the archive writer against the two readers, what any archive unpacks to, where things
  stand in an archive, and what damage the readers notice.
- `Sha256Standard`, `Sha256Constants`, `Sha256`: the streaming hash against FIPS 180-4,
  and where the constants of the standard come from.

## How to read it

A char is a byte, a string a C string unless it is the contents of a file. The tree
maps relative paths to `File`, `Dir` or `Link`. Faults are a budget: the number
of forward calls on tree, stage and database that still succeed; calls made while
rolling back succeed. The contracts say exactly at which budget a transaction ends how
(`Transaction.CommitOutcome`). Directory scans and `readdir` visit in an arbitrary
order, modelled by a nondeterministic choice. `access`, which follows links, is a
function parameter with three answers: the target is there, it is missing, or the test
fails otherwise.

A registered package counts as its record reads back. `db` holds the records that can be
read, `broken` names the others, at which every scan gives up.

What a method and its contract share, an operator, a format or a guard, is also stated
apart from them, on texts, bytes, nodes and versions: in `Expressions`, `TextLayout`,
`IndexLayout`, `ArchiveLayout`, `Acceptance` and `Sha256Constants`.

Where a promise fails on some input, the code is kept and the exact condition proved:

- The order of the resolver and the database is consistent at a version exactly when
  its parts have less than 64 characters (`VersionOrder.ConsistentIffShort`): a longer
  part makes the comparison fall back to strcmp.
- The comparators that split at digit-letter boundaries and those that split whole
  runs agree at a version exactly when each of its runs has less than 64 characters and
  does not mix digits and letters (`VersionOrder.AgreeableIffPlain`). An upgrade that passes its checks keeps all
  dependencies met exactly when the new version meets every versioned demand on it as
  the database compares (`Closure.UpgradeKeepsClosedIff`); that it can fail is shown by
  `Closure.IrregularUpgradeBreaks`, and by a run in `History.UpgradesPastDemand`.
- A path with a line end, or a link whose path hides the arrow of its entry, is accepted
  and recorded as something else or not readably. A payload is recorded as it is exactly
  when it has neither (`Stored.RecordedIffRecordable`,
  `Transaction.FaithfulIffRecordable`). The invariant on files over runs supposes it of
  every archive; `History.UnrecordableBreaksFiles` is the counterexample without, and
  `History.RecordsTwo` the run. Dependencies only need records that can be read: they are
  met throughout a run exactly when every upgrade meets the versioned demands and no
  record becomes unreadable (`History.EveryRunKeepsDependencies`).
- Removal uses `access` and leaves behind a link whose target is missing when its turn
  comes. A removal that `access` does not stop is complete exactly when all recorded
  links resolve at their turn (`Effects.RemovalCompleteIffLinksResolve`); a library and
  its versioned name are a counterexample (`Effects.LibraryLinkStays`, and as a run
  `Effects.LinkOutlivesPackage`). What a removal deletes is stated for either case
  (`Effects.RemoveDeletesExactly`): a link left behind keeps the directories above it.
- A failing upgrade restores the tree exactly when no file or link path new to the
  package was occupied (`Effects.UpgradeAtomicIff`, and as a run that reaches the failure
  `Effects.UpgradeFailingLate`); `Effects.LosesForeignFile` loses a file.
- Abandoning a candidate clears its own flag only, so that dependencies selected under
  it stay selected but leave the plan (`Choices.DependencyLost`). `Rollback` selects
  between that (`OwnFlag`) and clearing everything selected since (`Everything`). The
  plan as written is closed exactly when no candidate lost from it was needed
  (`WrittenPlans.ClosedIffLostUnneeded`), and the search as written is the one with full
  rollback exactly when it ends with as many selected candidates as planned ones
  (`Plans.WrittenIsFullIffCountsAgree`). A catalogue in which candidates compete only
  where everything below them has one dependency at most, such as one without any choice,
  always gives the plan of full rollback (`WrittenPlans.MildPlansAgree`).
- Link targets over 100 bytes are cut when an archive is built; targets survive exactly
  when none is longer (`ArchiveRoundTrip.TargetsSurviveIffShort`).
- The builder takes a million payload entries, the readers a million members with the
  manifest: what was built is accepted exactly when the payload has fewer
  (`ArchiveRoundTrip.BuildThenExtract`).
- A record reads a link back exactly when its path does not contain ` -> ` nor end in
  ` ->` (`RecordText.EntryReads`).
- The index reader prints and parses all of a manifest again at each of its lines. That
  is one pass over the lines, unless a manifest with its next line is over a mebibyte,
  when the index is refused (`IndexText.RereadingIsOnePass`).
- A manifest line of 4095 bytes is valid in an archive and makes the index that lists it
  unreadable (`IndexText.WideLineSpoilsIndex`); `IndexText.IndexThenParse` has the exact
  condition for an index.

Where code and comments or documentation disagree, the model follows the code: a record
starts with `# pux-record=1` and its file section with `# files` (include/pux/db.h:12-13);
links are packed, not refused; and although a comment in src/resolver.c says that
provides are not used for the root, only the existence of a candidate with that name is
checked, after which a provider may be planned in its place.

## Model

| member | source | states |
|---|---|---|
| VersionScan.NextBoundaryPart | src/resolver.c:399-428 | the next part cut at digit-letter boundaries is the head of the part list of the rest, unless it does not fit |
| VersionScan.NextRun | src/transaction.c:884-911 | the same for whole alphanumeric runs, numeric when all digits |
| VersionScan.CompareVersion | src/resolver.c:430-479 | the two-cursor loop of resolver and database computes the walk over part lists, with the strcmp fallback |
| VersionScan.CompareForIndex | src/repo.c:128-178 | the same loop as the index sorter has it: 128 bytes, an exhausted side noticed first |
| VersionScan.CompareLocal | src/transaction.c:913-945 | the loop of the transactions: whole runs, an overlong part ends the string |
| VersionScan.CompareForCli | src/cli.c:110-142 | the loop of the command line: an overlong part makes versions equal |
| Version.CompareNumbers | src/db.c:836-864 | comparing digit strings without leading zeros by length, then strcmp, is comparing their values |
| VersionOrder.WalkIsLex | src/resolver.c:430-479 | on fitting parts the walk is lexicographic: numbers by value above words, a prefix lower |
| VersionOrder.BoundaryIsTotalPreorder | src/resolver.c:430-479 | on versions with parts under 64 characters the order is antisymmetric, transitive and total |
| VersionOrder.RunsIsTotalPreorder | src/transaction.c:913-945 | the comparison of the transactions is antisymmetric, total and transitive on all versions: the lexicographic order of the parts before the first overlong one |
| VersionOrder.FamiliesAgree | src/repo.c:128-178 | on parts under 128 characters the index sorter gives the order of the resolver's parts, and the command line that of the transactions, also where runs mix digits and letters |
| VersionOrder.SameVersion | src/resolver.c:430-479 | every comparator calls a version equal to itself |
| VersionOrder.ConsistentIffShort | src/resolver.c:443-445 | the order is transitive at a version exactly when its parts are under 64 characters |
| VersionOrder.LongPartBreaksOrder | src/resolver.c:443-445 | for each version with a longer part, two short versions that close a cycle with it |
| VersionOrder.PlainComparatorsAgree | src/db.c:836-864 | all comparators return the same sign on short versions whose runs are all digits or all letters |
| VersionOrder.AgreeableIffPlain | src/transaction.c:913-945 | for every version: the two ways of splitting agree at it, against all plain versions with runs under 64 characters, exactly when each of its runs is all digits or all letters and has less than 64 characters |
| VersionOrder.WildRunSplitsComparators | src/transaction.c:884-911 | for each version with a mixed or a long run, a plain version on which the two families disagree; they order the pair oppositely if its runs are under 128 characters |
| Package.ResolverParseIsDbParse | src/resolver.c:514-537 | what the resolver parses the database parses alike, and a match of the resolver is a match of the database on the right architecture |
| Package.SpelledReads | src/resolver.c:325-397 | a requirement spelled as name, operator and version parses back, in resolver and database |
| Expressions.ResolverReadsExactly | src/resolver.c:324-397 | the resolver takes exactly the texts that spell a name, or a name, one operator and a version, without blanks, and for that requirement |
| Expressions.DbReadsExactly | src/db.c:773-806 | the same for the database, which takes any rest after the operator for the version |
| Expressions.UpgradeReadsExactly | src/transaction.c:971-1016 | the same for the upgrade checks: two equals signs besides one, names and versions under 256 characters, no blank in a version |
| Expressions.DatabaseDemands | src/db.c:866-883 | from the text: a name demands a package that carries it, a name with =, <, <=, > or >= and a version a package of that name whose version compares so |
| Expressions.ResolverDemands | src/resolver.c:480-537 | a candidate matches exactly if it suits the machine, or any, and would satisfy the expression installed; best of all under its own name |
| Expressions.UpgradeDemands | src/transaction.c:1028-1044 | from the text, what each operator demands of a manifest in the upgrade checks |
| Expressions.AcceptedIsMet | src/transaction.c:225-243 | all dependencies of a manifest are met exactly if an installed package accepts the text of each |
| Expressions.DependentsDemand | src/transaction.c:1084-1161 | from the text of another package's dependency: the new version must carry what the old one carried, at a version that is demanded, and nothing else |
| Expressions.ReplacementDemands | src/transaction.c:1046-1082 | from the text of the new version's own dependency: who may meet it |
| Expressions.ConflictsReadAlike | src/resolver.c:563-639 | the resolver's trial, its final pass and the upgrade read conflicts alike: no version named, and nothing that the other package carries |
| Expressions.AdmissibleIffSpared | src/resolver.c:603-639 | a candidate is admissible exactly if it and the selected ones spare each other, and it itself |
| Expressions.NoConflictIffSpared | src/transaction.c:1163-1244 | an upgrade finds no conflict exactly if it names no version and it and every other installed package spare each other |
| Requirements.UpgradeParseIsDbParse | src/transaction.c:971-1016 | what the upgrade parser accepts has the same name, operator and version for the database, up to one leading equals sign |
| Requirements.UpgradeMatchesIsDbMatches | src/transaction.c:1028-1044 | on regular versions an expression the upgrade finds satisfied by a manifest is satisfied for the database, and conversely |
| Database.DependencySatisfied | src/db.c:901-953 | the scan answers whether a record satisfies the expression; no answer only if it does not parse or a record cannot be read, and "no" only with all records readable |
| Database.DependencyCheck | src/transaction.c:225-243 | passing means every dependency parses and some record satisfies it; with all records readable, failing means the contrary |
| Database.FindReverseDependency | src/db.c:957-1073 | clear exactly when no other package rests on the target alone and all other records can be read; otherwise names one that does, or gives up |
| Database.FindOwner | src/db.c:1074-1131 | the owner found lists the path and is not excluded; none found means no other package lists it and every other record was read |
| UpgradeChecks.ReplacementCheck | src/transaction.c:1046-1082 | passing means each dependency of the new manifest is met by itself, by a capability it keeps, or by another record; with all records readable, failing means the contrary |
| UpgradeChecks.DependentCheck | src/transaction.c:1084-1161 | passes exactly when all other records can be read and each dependency of theirs on a capability of the old manifest is met by the new one |
| UpgradeChecks.ConflictCheck | src/transaction.c:1163-1244 | passes exactly when all other records can be read and old conflicts and new ones are unversioned and none hits, in both directions |
| Closure.InstallKeepsClosed | src/transaction.c:225-243 | adding a package whose dependencies are met keeps all dependencies met |
| Closure.RemoveKeepsClosedIffNotNeeded | src/db.c:957-1073 | the reverse dependency check refuses exactly the removals that would leave a dependency unmet |
| Closure.UpgradeKeepsClosedIff | src/transaction.c:1046-1161 | an upgrade that passes the two checks keeps all dependencies met exactly when the new version meets every versioned demand on it, compared as the database does |
| Closure.UpgradeKeepsClosed | src/transaction.c:1046-1161 | so it does when all versions are regular |
| Closure.IrregularUpgradeBreaks | src/transaction.c:1084-1161 | an upgrade that passes both checks and misses a demand: lib from 1a1 to 1a10 under a dependency on at most 1a9 |
| Collect.CollectTree | src/transaction.c:141-223 | succeeds exactly when the payload is collectable, and lists each node once, parents first |
| Tree.SortedRecords | src/db.c:155-164 | sorting a file list by path keeps what it records and makes it ascending |
| Transaction.Engine.CommitStage | src/transaction.c:547-611 | directories created and files moved lie over the old tree; it succeeds exactly when the budget covers one call for each missing directory and each file, and then all of the payload is there |
| Transaction.Engine.UndoCommit | src/transaction.c:354-363 | undoing in reverse order leaves the tree less exactly the paths that files were moved to |
| Transaction.Engine.Preflight | src/transaction.c:308-352 | passing means every file or link path is unclaimed and absent and every directory path absent or a directory; with all records readable, failing means the contrary |
| Transaction.Engine.MoveAside | src/transaction.c:804-836 | moves the files and links out that access finds; it fails exactly when access fails on a link at its turn, other than for a missing target, or the budget does not cover the moves, with an exact account of what was moved |
| Transaction.Engine.RestoreMoved | src/transaction.c:864-875 | moving back in reverse order puts every node where it was |
| Transaction.Engine.PruneDirs | src/transaction.c:842-856 | removes exactly the prunable directories of the list, children first |
| Transaction.Engine.Register | src/db.c:380-472 | the record is written as text, and counts from then on as that text reads back, or as unreadable |
| Transaction.Engine.Install | src/transaction.c:386-629 | done: the guard held and the payload is in place and registered; otherwise nothing changed; under the guard, with all records readable, the budget alone decides how it ends |
| Transaction.Engine.Remove | src/transaction.c:712-881 | done: the guard held and files, links, prunable directories and record are gone; otherwise nothing changed; under the guard, budget and access decide how it ends |
| Transaction.Engine.Exchange | src/transaction.c:1464-1601 | old files aside, payload in place, record replaced; or the database as before and the tree less foreign files, all of them if the record was the call to fail; the budget decides which |
| Transaction.Engine.Upgrade | src/transaction.c:1265-1602 | not newer: exactly if package and machine suit, it is installed, and its version is lower, or the same with no higher release; done: everything was accepted and old files, payload, directories and record are exchanged; a refusal changes nothing; a fault leaves the database and all but foreign files; once accepted, the budget alone decides how it ends |
| Transaction.FaithfulIffRecordable | src/db.c:474-564 | a registered package is recorded as its payload is exactly when no path holds a line end and no path of a link hides the arrow |
| Transaction.ReadableRecord | src/db.c:474-564 | a record that can be read carries the manifest of the archive, whatever its file list says |
| Transaction.RecordableIsReadable | src/db.c:474-564 | a payload that is recorded as it is gives a record that can be read, in whatever order it was listed |
| Effects.InstallOnlyAdds | src/transaction.c:547-629 | every existing path keeps its node, what is new comes from the payload, all of the payload is there |
| Effects.RemovalCompleteIffLinksResolve | src/transaction.c:804-836 | where access stops nothing, all recorded files and links go exactly when each recorded link resolves at its turn |
| Effects.DanglingStays | src/transaction.c:814 | a link whose target is missing when its turn comes is left behind |
| Effects.LibraryLinkStays | src/transaction.c:704-710 | a library link is left behind because its target sorts first for removal; under lstat it is not |
| Effects.LinkOutlivesPackage | src/transaction.c:712-881 | a run of the engine that removes the package and leaves that link |
| Effects.RemoveDeletesExactly | src/transaction.c:805-880 | after any removal exactly these are gone: recorded files and links but the links that lead nowhere at their turn, and recorded directories that no one else records with nothing left below, such a link included; all else is as before |
| Effects.RemoveDeletesFiles | src/transaction.c:805-836 | after any removal no recorded file is there, and a recorded link is there exactly if it was left behind at its turn |
| Effects.CompleteRemovalDeletes | src/transaction.c:805-880 | where all recorded links resolve at their turn, all recorded files and links are gone, and the directories left empty |
| Effects.NeverStuckIff | src/transaction.c:814-818 | nothing stops a removal exactly if access fails on no recorded link at its turn, other than for a missing target |
| Effects.UpgradeAtomicIff | src/transaction.c:1420-1435 | for every number of calls, a failed upgrade restores the tree exactly when no file or link path of the payload was occupied by what the package did not record |
| Effects.UpgradeFailingLate | src/transaction.c:1533-1595 | an accepted upgrade in which writing the record fails: the tree is restored exactly when nothing was foreign, else all of that is gone |
| Effects.LosesForeignFile | src/transaction.c:1403-1449 | a run that loses a file nobody recorded, at a path new to the package, whose own file stays |
| Effects.UpgradeEffect | src/transaction.c:1464-1601 | the new payload is in place, old-only files and links are gone, paths in neither list are unchanged |
| History.Perform | src/transaction.c:386-1602 | whatever the three methods do, and whatever fails, is a step of the state machine |
| History.StepKeepsFiles | src/transaction.c:308-352 | each step with a recordable payload, failed or not, keeps: all records readable, recorded paths live with their type, and a path one package records as file or link no other records |
| History.EveryRunKeepsFiles | src/db.c:1074-1131 | that, and so that all records can be read, holds in every state of every run, with recordable payloads, that starts with no package installed |
| History.UnrecordableBreaksFiles | src/transaction.c:141-223 | an accepted installation of a file with a line end in its name, whose record lists two files that are not there |
| History.RecordsTwo | src/transaction.c:386-629 | the run of the engine that installs it |
| History.RecordSpoiled | src/db.c:474-564 | another such name, after which the record cannot be read |
| History.StepKeepsDependencies | src/db.c:866-1073 | each step, whatever its payload, keeps all dependencies of all installed packages met exactly if all records can be read after it and it is not an upgrade that misses a versioned demand |
| History.EveryRunKeepsDependencies | src/db.c:866-1073 | all dependencies are met in every state of a run exactly if each upgrade in it meets the versioned demands and no state has an unreadable record |
| History.RegularRunKeepsDependencies | src/db.c:866-1073 | so they are in every run with regular versions, up to the first unreadable record |
| History.StepKeepsReadable | src/db.c:380-564 | a step whose archive gives a record that can be read leaves no unreadable record |
| History.ReadableRunKeepsDependencies | src/db.c:866-1073 | in a run of such archives all dependencies are met in every state exactly if each upgrade meets the versioned demands, and with regular versions always |
| History.UpgradesPastDemand | src/transaction.c:1265-1602 | a run of the engine whose upgrade succeeds and leaves a dependency of another package unmet |
| History.StepRises | src/transaction.c:1295-1310 | a package that stays installed through a step keeps its manifest, unless the step upgrades it, and then its version is higher, or the same with a higher release |
| History.UpgradesOnlyRise | src/transaction.c:1295-1310 | in any run, of any versions: while a package stays installed, upgrades only take it forward, and no sequence of them leads back |
| Acceptance.RecordedKind | src/transaction.c:636-702 | in a reachable state each recorded path is there as its kind of node, links with their target |
| Acceptance.InstallAcceptedIff | src/transaction.c:225-352 | in a reachable state an installation is accepted exactly if machine and name allow, dependencies are met, and the payload, of 1 to 4096 nodes, meets the tree only in directories |
| Acceptance.RemovalAcceptedIff | src/transaction.c:712-800 | in a reachable state a removal is accepted exactly if all dependencies are met without the package |
| Acceptance.UpgradeAcceptedIff | src/transaction.c:1265-1435 | in a reachable state an upgrade is accepted exactly if machine, version, release and manifests allow, and the payload has the kinds of node that are there and no file or link that another package records |
| Acceptance.ClaimedIsRefused | src/transaction.c:308-352 | in any state, a path that a package records is refused to a file or link of another, even where it is gone |
| Acceptance.GoneDoesNotMatter | src/transaction.c:637-702 | in any state, recorded paths that are gone do not stop a removal, and those that are another kind of node, or another link, do |
| Search.Resolve | src/resolver.c:656-774 | the plan and the selection only grow, new plan entries are distinct and newly selected, and the recursion ends without the step limit |
| Search.Matching | src/resolver.c:675-692 | the collected matches are exactly the unselected candidates that match, in catalogue order |
| Resolver.Solver.ConflictsWithSelected | src/resolver.c:603-639 | refuses exactly the candidates that conflict with themselves or with a selected one, either way, or use versioned conflicts |
| Resolver.Solver.SortMatches | src/resolver.c:700-708 | the exchange sort in place computes the sorting function |
| Resolver.Solver.ResolveRequirement | src/resolver.c:656-774 | the recursive method on the selection array computes the search as written, nested no deeper than the number of selected candidates |
| Resolver.Solver.TryMatches | src/resolver.c:712-765 | the loop over sorted matches computes the search over them |
| Resolver.Solver.TryCandidate | src/resolver.c:723-764 | one trial: selected, dependencies resolved, then planned, or its flag cleared and the plan cut back |
| Resolver.Solver.ResolveDependencies | src/resolver.c:727-750 | the loop over dependencies computes the search over them |
| Resolver.ConflictPass | src/resolver.c:776-806 | the final pass accepts exactly the plans without a versioned or matching conflict between two entries |
| Resolver.ResolvePackagePlan | src/resolver.c:818-942 | search, conflict pass and path check together give the plan of archives |
| Solutions.ArrangedMatch | src/resolver.c:700-708 | the sorted list holds exactly the unselected matches |
| Solutions.PreferenceIsOrder | src/resolver.c:539-561 | a candidate is preferred for a better kind of match, then the higher version, then the higher release, then the path that sorts first; on short versions that is a strict weak order |
| Solutions.ArrangedOrder | src/resolver.c:700-708 | on short versions no match outranks one tried before it |
| Solutions.TriedInOrder | src/resolver.c:700-708 | on short versions matches are tried by kind, then versions from the highest down, then releases from the highest down, then by path |
| Choices.NamesBeforeProvides | src/resolver.c:539-561 | whatever the versions, packages of the wanted name are tried before those that only provide it |
| Solutions.ArrangedByKind | src/resolver.c:700-708 | the exchange sort orders by match kind even where the versions are in no order |
| Solutions.ResolveKeepsCoherent | src/resolver.c:563-639 | in every state, with either rollback, selected candidates fit the architecture, have distinct names and do not conflict either way |
| Solutions.ConflictPassNeverFails | src/resolver.c:776-806 | so that the final conflict pass never fails |
| Solutions.PlanExistsIff | src/resolver.c:818-942 | there is a plan exactly if the package is there under its own name for the machine, the search succeeds, and all planned paths end in .pux; it lists their paths in order |
| Solutions.LimitIs | src/resolver.c:656-668 | the search gives up after 65536 requirements |
| Plans.ResolveSound | src/resolver.c:656-774 | with full rollback: what is selected is planned or under trial, and each planned dependency is met by an earlier entry or one that leads back |
| Plans.PlanIsClosed | src/resolver.c:656-774 | with full rollback a plan holds a match of the root and, for each dependency of each entry, a matching entry that is earlier or requires it in turn; names are distinct |
| Plans.AcyclicPlanIsOrdered | src/resolver.c:726-760 | without cycles each dependency is met by an earlier entry |
| Plans.WrittenIsFullIffCountsAgree | src/resolver.c:763-764 | a successful search as written equals that with full rollback exactly when it selected as many as it planned |
| Plans.WrittenPlanIsFull | src/resolver.c:818-942 | the program's plan is then one of full rollback |
| WrittenPlans.ClosedIffLostUnneeded | src/resolver.c:763-764 | the plan as written is closed exactly when no candidate lost from it meets a dependency that the plan does not meet itself |
| WrittenPlans.MildPlansAgree | src/resolver.c:656-774 | where candidates compete only with at most one dependency in everything below them, the program plans, or fails to plan, as with full rollback |
| WrittenPlans.MildPlanIsClosed | src/resolver.c:656-774 | so its plan is closed and in dependency order, without cycles each dependency earlier |
| WrittenPlans.OneEachIsMild | src/resolver.c:656-774 | a catalogue without any choice is of that kind |
| Plans.GapMeansLost | src/resolver.c:763-764 | as written, a dependency of a planned candidate that no planned one meets is met by one that was selected and lost |
| Choices.TryTakesFirst | src/resolver.c:712-765 | the loop gives up, each in the state it has reached at its turn, exactly the matches before the one it takes: its name or a conflict stands against it, or a dependency is not resolved from there within the step limit; it takes the first other one, whose dependencies it plans before it, and fails only when it gave up all, in the state after the last |
| Choices.ChosenIsBest | src/resolver.c:700-765 | on short versions each unselected match that outranks the one selected, by kind, version, release or path, had its turn before, in the state the loop had reached, and was given up then |
| Choices.DependencyLost | src/resolver.c:763-764 | as written, an older app is planned without the library that the trial of the newer app selected |
| Choices.TwoAppsExist | src/resolver.c:763-764 | a catalogue of that kind: app 2, app 1, lib 1 |
| InstallPlan.PlanSuitsInstaller | src/resolver.c:514-537 | the plan of an acyclic catalogue, read by the database, lists dependencies first, distinct names, fitting architectures |
| InstallPlan.FindOtherVersion | src/cli.c:979-1013 | the first pass finds the first package that is installed as something else |
| InstallPlan.InstallAll | src/cli.c:979-1051 | answers that another version is installed exactly if some package of the plan is installed with another version, release or architecture, and then nothing changes; on a plan of packages whose records can be read, all before the one it stops at are installed, and on a suited plan no dependency check fails and the only refusal left is about paths; records and nodes stay, and success means all archives are installed |
| ManifestText.ReadBuffer | src/package.c:266-319 | the cursor loop over the buffer computes the parse of its lines |
| ManifestText.ParsePrintedLine | src/package.c:167-264 | a printed line assigns its field and nothing else |
| ManifestText.ParseContinues | src/package.c:266-319 | reading what was printed of a manifest, complete or not, gives it back and goes on with what follows, exactly when the lines fit |
| ManifestText.PrintThenParse | src/package.c:450-481 | printing a valid manifest and parsing it gives it back exactly when lines, lists and size are within the limits |
| ManifestText.WriteStream | src/package.c:450-481 | writes the fields in order, or nothing for an invalid manifest |
| TextLayout.PrintIs | src/package.c:450-481 | the text of a valid manifest, line by line |
| TextLayout.LineReadsExactly | src/package.c:167-264 | the parser takes exactly blank lines, lines that start with #, and a known key with a printable value it can have, each with or without a carriage return |
| TextLayout.SetAtMostOnce | src/package.c:167-264 | a field that is no list is set at most once, a list has at most 256 items |
| TextLayout.TokenIs | src/package.c:65-83 | which texts are names, versions and architectures |
| TextLayout.ScalarIs | src/package.c:85-98 | which texts are values: printable bytes, at least one |
| TextLayout.NumbersAreSet | src/package.c:202-223 | a format is set to the value of its digits below 2^32, a release to that and not to zero |
| TextLayout.SignsAndBlanks | src/package.c:101-118 | blanks before a number and a plus sign do not count, a minus sign takes it from 2^64 |
| TextLayout.SafePathIs | src/db.c:70-97 | a path is safe exactly if none of its components is empty, a dot or two dots |
| TextLayout.MeetsItself | src/db.c:866-883 | every valid package can be demanded by its name and version, and meets that demand |
| RecordText.ReadEntries | src/db.c:517-559 | the cursor loop over the file section computes the parse of its lines |
| RecordText.WriteFileList | src/db.c:230-240 | writes one line for each entry, in order |
| RecordText.EntryReads | src/db.c:526-550 | an entry line reads back, for links exactly when the path does not hide the arrow |
| RecordText.MarkerPosition | src/db.c:490-517 | the first files marker is the one the writer put after the manifest |
| RecordText.WriteThenRead | src/db.c:380-564 | registering and reading a record gives the manifest and the same entries sorted by path exactly when manifest, lines and count are within the limits and each entry line reads back |
| RecordText.SortedReadsBack | src/db.c:380-564 | a record that is sorted already reads back as it is under the same condition |
| TextLayout.RecordIs | src/db.c:380-472 | the text of a record: its first line, the manifest, the marker, the entries |
| TextLayout.LoadedRecordIsGood | src/db.c:474-564 | whatever record can be read carries a valid manifest and at most 4096 entries, each path once, in path order, safe and below 4096 bytes |
| TextLayout.RegistrableIs | src/db.c:380-412 | which entries a record may have when it is written |
| TextLayout.NulEndsRecord | src/db.c:474-490 | what follows a NUL is no part of a record |
| TextLayout.EntryLineIs | src/db.c:230-240 | the line of a file, a directory and a link |
| Stored.RecordedIffRecordable | src/db.c:474-564 | whatever comes from an archive is recorded as it is exactly when it is recordable: the limits hold by themselves |
| Stored.LineEndSplits | src/db.c:517-559 | one file whose name holds a line end reads back as two other files |
| IndexText.ReadIndex | src/repo.c:350-577 | the line loop computes the parse of the index |
| IndexText.RereadIsParseLine | src/repo.c:494-549 | printing what was read so far with the next line and parsing all of it is parsing that line, exactly up to the size limit |
| IndexText.RereadingIsOnePass | src/repo.c:350-577 | for any text: it parses as in one pass over its lines, unless that pass meets a manifest line with which the manifest prints in over a mebibyte; then it is refused |
| IndexText.AcceptedIsOnePass | src/repo.c:350-577 | so an index that is accepted, or has at most a mebibyte, parses as in one pass |
| IndexText.WriteIndex | src/repo.c:283-324 | writes the entries in order, or nothing if a manifest is invalid |
| TextLayout.IndexIs | src/repo.c:283-324 | the text of an index: its first lines, and for each package three lines, its manifest and a blank line |
| IndexLayout.LoadedIsGood | src/repo.c:350-577 | whatever index loads lists at least one package, and each under a plain file name ending in .pux, with a 64-bit size, 64 lower-case hexadecimal digits and a valid manifest |
| IndexLayout.DigestIsLowered | src/repo.c:452-473 | a digest may be spelled in either case, and is taken in lower case |
| IndexLayout.LinesRefused | src/repo.c:410-494 | refused: a package within a package, a second size or digest, the marker of a record, and anything but a package or a blank line outside of one |
| IndexLayout.EntryIsListed | src/repo.c:380-408 | an entry that ends is listed exactly if it had size, digest and a valid manifest |
| IndexLayout.FileNameIs | src/repo.c:65-75 | which names are those of package files |
| IndexLayout.EitherLineEnd | src/repo.c:340-348 | a line may end in a carriage return and a line feed |
| IndexText.IndexThenParse | src/repo.c:283-324 | loading a written index gives the catalogue exactly when each entry has a short name without a line end, manifest lines of at most 4094 bytes and at most a mebibyte of manifest, and the file is not too large |
| IndexText.WideLineSpoilsIndex | src/repo.c:340-348 | a valid package with a manifest line of 4095 bytes makes the index that lists it unreadable |
| ManifestSize.ParsedFits | src/package.c:266-319 | whatever was parsed prints within the limits of a record |
| Ustar.WriteOctal | src/builder.c:302-325 | succeeds exactly when the value fits, and writes its octal digits with leading zeros and a NUL, nothing else |
| Ustar.ParseWritten | src/container.c:53-86 | a number written with room for it parses back |
| UstarHeader.WriteHeader | src/builder.c:327-373 | the header is filled in exactly when name and size fit; its bytes are those of the layout, with the checksum |
| UstarHeader.HeaderReads | src/extract.c:188-253 | both readers take from a written header its name, size, kind, target and mode |
| Archive.ValidateArchive | src/container.c:246-398 | the member loop computes the validation of the bytes |
| Archive.ExtractArchive | src/extract.c:517-643 | the member loop computes the extraction into an empty directory |
| ArchiveRoundTrip.OneListing | src/builder.c:131-136 | a tree has one sorted member list: the archive does not depend on the order directories are read in |
| ArchiveRoundTrip.CollectPayload | src/builder.c:177-295 | in any reading order, fails exactly when a node cannot be packed or there are over a million, else gives the sorted list |
| ArchiveRoundTrip.Build | src/builder.c:573-644 | succeeds exactly when manifest, paths, targets, sizes and count allow, and writes the archive of that list |
| ArchiveRoundTrip.MemberCuts | src/builder.c:375-385 | the readers find the next member right behind the header, contents and padding of this one |
| ArchiveRoundTrip.MembersExtract | src/extract.c:517-643 | extraction places the members one after the other, each parent before what it holds |
| ArchiveRoundTrip.BuildThenExtract | src/extract.c:517-643 | what was built validates exactly when the payload has less than a million entries, and unpacks to the same paths and contents with modes less setuid and setgid |
| ArchiveSafety.ExtractedIsInstallable | src/extract.c:308-381 | any bytes that unpack give a manifest within the limits of a record and a payload with safe names of bounded length, closed under parents, directories all of them: the premise of the transactions |
| ArchiveRoundTrip.TargetsSurviveIffShort | src/builder.c:200-212 | link targets come back whole exactly when none is longer than 100 bytes |
| ArchiveLayout.HeadersOnBlocks | src/builder.c:375-385 | in a built archive every header stands at a multiple of 512, behind the manifest and the members before it in whole blocks, and a file's contents right behind its header with less than a block of NULs after them |
| ArchiveLayout.EndsInNuls | src/builder.c:387-392 | a built archive is a whole number of blocks, the last two all NULs |
| ArchiveLayout.CutShortIsRefused | src/container.c:246-398 | a built archive that is cut anywhere neither validates nor unpacks |
| ArchiveLayout.MembersAre | src/builder.c:521-571 | name, mode, size, kind and target under which each node, and the manifest, is entered |
| ArchiveLayout.PackableIs | src/builder.c:177-295 | what can be packed: paths of at most 92 characters, 91 for a directory, files below 8 gibibytes, links whose first 100 characters are printable |
| ArchiveLayout.HeaderLayout | src/builder.c:327-373 | the texts of a header at the offsets of the ustar format |
| ArchiveLayout.HeaderNumbers | src/builder.c:336-345 | and its numbers, octal digits with a NUL |
| ArchiveLayout.ChecksumStands | src/builder.c:356-372 | the checksum is the sum of the bytes of the header with blanks in its place |
| ArchiveLayout.DamageIsDetected | src/container.c:87-99 | a header that is changed in any one byte outside of the checksum is not read |
| ArchiveLayout.AcceptedMembers | src/extract.c:188-253 | what is read has a known kind, a safe name under META or payload, the format's magic, and no contents if it is a link |
| ArchiveLayout.NamesAllowed | src/extract.c:120-186 | the names a member may have: META, its manifest, payload, and safe paths below payload |
| ArchiveLayout.BlanksAround | src/container.c:53-86 | a number in a header may have blanks or NULs around it |
| ArchiveLayout.ParentsAreMade | src/extract.c:308-381 | directories that no member names are made with mode 0755, and nothing else changes |
| ArchiveLayout.ModeIs | src/extract.c:270-306 | a mode loses set-user-id, set-group-id and what is above; without one it is 0644 |
| ArchiveLayout.ManifestTakenIff | src/container.c:305-352 | the validator takes exactly one manifest, a file of either spelling of that kind, not empty, of at most a mebibyte, and all there |
| ArchiveLayout.TakenIsRefused | src/extract.c:400-515 | nothing is placed where a path is taken, but a directory where one is |
| ArchiveLayout.FullDirectoryRefused | src/extract.c:590-600 | a directory has no contents |
| Sha256.PaddingIsStandard | src/sha256.c:151-165 | below 2^61 bytes the last eight bytes are the bit length and the zeros the fewest possible, as in section 5.1.1 of FIPS 180-4 |
| Sha256.Context.Transform | src/sha256.c:46-115 | one block changes the hash value as section 6.2.2 says |
| Sha256.Context.Update | src/sha256.c:132-149 | after any update the context stands for the whole message fed so far |
| Sha256.Context.Final | src/sha256.c:151-171 | the digest of everything fed, on either side of byte 56 |
| Sha256.LengthByte | src/sha256.c:154-164 | counters modulo 2^64 still write the bytes of the bit length modulo 2^64 |
| Sha256.HexInjective | src/sha256.c:173-182 | equal hexadecimal digests are equal digests |
| Sha256.HexReads | src/sha256.c:173-182 | read in base 16, the text is the digest, the higher digit of a byte first |
| Sha256Constants.InitialIsSquareRoots | src/sha256.c:117-130 | the initial hash value is the first 32 bits of the fractional parts of the square roots of the first eight primes |
| Sha256Constants.CubeRootsFrom0 | src/sha256.c:48-65 | the first four round constants are those of the cube roots of the first four primes; `CubeRootsFrom4` to `CubeRootsFrom60` say so for the others up to the 64th |
| Sha256Constants.BytesAreBigEndian | src/sha256.c:16-30 | words are read and written with the highest byte first |
| Sha256.HashPieces | src/sha256.c:184-220 | however the input is cut into pieces, the result is the hexadecimal digest of the whole |

## Left out

- Transaction.Engine: staging and backup directories are two maps beside the tree; their own paths, creation and cleanup, and links met in the middle of a path, are not modelled.
- Transaction.Engine.Remove: calls made during a rollback succeed, and removing emptied directories after the commit neither fails for another reason nor reports.
- History.EveryRunKeepsFiles: is stated for recordable payloads; `History.UnrecordableBreaksFiles` is the counterexample.
- Transaction.Engine.Register: a record that cannot be read for another reason than its text is not part of this model.
- InstallPlan.InstallAll: archive verification against the index is a premise, namely that each archive carries the manifest that the index lists.
- RecordText.ParseEntry: on a line that is the letter l alone the program looks past the end of the line before it refuses; the model refuses.
- ArchiveRoundTrip.CollectPayload: the walk over directories is one loop over the paths of the tree in an arbitrary order, and sorting is insertion while collecting.
- Sha256.Context.Update: message lengths are unbounded; FIPS 180-4 defines the hash below 2^64 bits, where `Sha256.PaddingIsStandard` identifies the padding.
- Conflicts with installed packages: install does not check them, so that no invariant about them holds; upgrade does, see `UpgradeChecks.ConflictCheck`.
- The order of entries in a written index, src/repo.c:180-194: only its version comparison is modelled.
- Completeness of the resolver: it never reconsiders a dependency choice, so that failure does not mean there is no solution.
- Permissions, umask, owners, file times, path lengths of the running system, crashes in mid-step and other processes.
- The commands `db register` and `db unregister`, which bypass the checks, and so are no steps of the state machine.
- Downloads, signatures, trust keys, configuration files and argument handling: file plumbing and foreign calls.
- Memory exhaustion and the wording of error messages.
