# A model of pbps's planner, adoption and live gate

pbps plans schema changes for PostgreSQL and SQL Server from declarations kept
in files. This project models the parts whose correctness spans many steps,
files or processes, and proves what they promise:

- **Drop ordering** (`Settle`, `Cycles`, `Catalog`, `DropOrder`, `DropEngine`,
  `DropDemand`, `AddedCalls`). The catalog's dependency edges refuse plans the
  engine would reject and reorder the rest. A small-step engine with standing
  computed columns and schema-bound modules runs every accepted plan of the
  differ to its end, and demands every wait, move, cycle and refusal.
- **Identity migration** (`Migration`, `MigrationOutcome`). Many atomic writes,
  one delete and one config edit, killed anywhere and started again; what each
  answer means for the disk; and the guard that keeps a reader from taking "no
  legacy file" for "no identities".
- **Adoption** (`Adoption`, `NarrowRole`). Passes that leave out what
  validation refuses, keep the rest closed and record everything they drop.
- **Declaration files** (`DeclarationFile`, `DeclarationPaths`). An injective
  encoding with a reserved-name escape, a hashed namespace and a refusal of
  names that differ only in case.
- **The live gate** (`Sorting`, `Partition`, `Assignment`, `Receipts`, `Proxy`,
  `Transcript`, `Audit`, `Reckoning`, `Resume`, `ResumeRule`, `Chain`,
  `Claims`, `ClaimRuns`). Tests split over shards, obligations published before
  they start, receipts replaced in place, an audit of their union, chains of
  resumed runs with a failure budget, and a ledger of single-use retries shared
  by concurrent drivers. `Assignment`, `Transcript`, `Reckoning` and
  `ResumeRule` say what the split, a receipt, the audit and a resume decide
  over the tests, lines and files themselves, apart from how it is computed.

Code that changes state step by step is modelled by methods and classes proved
against specification functions; the properties are then lemmas about those
functions. Kill points are modelled by keeping every state of the disk: a
property of a killed command is a property of every state it passes through.

`dafny verify dfyconfig.toml` checks the whole project.

## Where the code and its description part ways

- The help of `ids migrate` says to run it again after an interruption and it
  finishes the job (`crates/pbps-cli/src/ids_cmd.rs:29`). The tree reader
  refuses any entry that is not a `.json` file, so a run killed between writing
  a temporary file and renaming it stops every later run.
  `Migration.KilledBeforeRename` is such a run;
  `Migration.MigrationConvergesIffNoStray` is the exact condition.
- A migrated project that had named its own legacy file falls back to the
  default one. If a file still lies there, the guarded reader takes it for the
  project's identities (`Migration.StaleDefaultBelieved`), and a further
  migration can convert it over the tree (`Migration.StaleDefaultOverruns`).
  No mapping's files are ever lost by this (`Migration.MigrationNeverLoses`);
  when the reader is safe, when the tree keeps assembling to the mapping and
  when the goal is final are said exactly by `Migration.GuardedReaderIsSafe`,
  `Migration.MappingStaysExactly` and `Migration.ConvergesForGoodExactly`.
- A plan that drops a column and, later, its whole table is accepted though a
  computed column of the table still reads the column when it goes:
  `DropEngine.ColumnBeforeItsTable`. The differ makes no such plan: a table
  absent from the declarations gives no column drops of its own
  (`crates/pbps-diff/src/schema_diff.rs:1155-1179`), and columns are compared
  for surviving tables alone (`crates/pbps-diff/src/schema_diff.rs:2903-2905`).
  `DropEngine.AcceptedPlansRun` has the exact condition.
- The strict audit does not ask a receipt for its head. A worktree that changes
  while the last run of a chain runs leaves receipts without one, and the audit
  accepts them: `Chain.CleanWithoutHead`. `Chain.HeadRecordedExactly` says when
  the audit does vouch for the head.
- One pass of orphans is one level deep. A partition of a partition can stay
  behind without its parent: `Adoption.TwoLevelsBreakClosure`, with the exact
  condition in `Adoption.ClosedForEveryDialectIffOneLevel`.
- A trigger's stem joins table and name with a raw dot, so two triggers can
  share a file name: `DeclarationFile.TriggersCollide`. Only the refusal of
  clashing paths keeps them apart.

## Model

| member | source | states |
|---|---|---|
| `Settle.Kahn` | crates/pbps-diff/src/order/schedule.rs:653-688 | with counters of unplaced predecessors, places at each point the lowest step nothing unplaced holds, until none is ready |
| `Settle.SettledRespects` | crates/pbps-diff/src/order/schedule.rs:649-652 | whatever is placed has all it waits for placed before it |
| `Settle.SettledPlacesOnce` | crates/pbps-diff/src/order/schedule.rs:653-688 | no step is placed twice |
| `Settle.SettledUnique` | crates/pbps-diff/src/order/schedule.rs:653-688 | the edges determine the order |
| `Settle.SettledIsFirst` | crates/pbps-diff/src/order/schedule.rs:649-652 | among all orders the edges allow, the settled one is the first that keeps the order given |
| `Settle.OnlyHeldStepsSink` | crates/pbps-diff/src/order/schedule.rs:649-652 | a later step runs ahead of an earlier one only while an edge holds the earlier one |
| `Settle.ForwardStays` | crates/pbps-diff/src/order/schedule.rs:649-652 | an order the edges already allow is unchanged |
| `Settle.CompleteIffNoCycle` | crates/pbps-diff/src/order/schedule.rs:448-475 | every step is placed if and only if no set of steps waits on itself |
| `Settle.LeftoverIsStuck` | crates/pbps-diff/src/order/schedule.rs:448-475 | what is not placed is such a set |
| `Settle.Moved` | crates/pbps-diff/src/order/schedule.rs:865-877 | counts the steps some later one precedes |
| `Settle.NoneMovedIffUnchanged` | crates/pbps-diff/src/order/schedule.rs:865-877 | nothing counts as moved exactly if the order is the one given |
| `Cycles.ComponentOf` | crates/pbps-diff/src/order/schedule.rs:687-750 | the component of a step is exactly the steps that reach it and that it reaches |
| `Cycles.FirstCycle` | crates/pbps-diff/src/order/schedule.rs:566-576 | among steps that wait on one another, finds the component of more than one step whose least member is least |
| `Cycles.NamedFirst` | crates/pbps-diff/src/order/schedule.rs:566-576 | no step of another cycle comes before all of it |
| `Cycles.NamedUnique` | crates/pbps-diff/src/order/schedule.rs:566-576 | so the edges determine which component is named |
| `Cycles.StuckHasCycle` | crates/pbps-diff/src/order/schedule.rs:566-576 | steps that each wait for one of them hold a cycle of more than one |
| `Cycles.ComponentUnplaced` | crates/pbps-diff/src/order/schedule.rs:557-576 | the component named is among the steps left waiting |
| `DropOrder.Collect` | crates/pbps-cli/src/computed_order.rs:173-191 | one scan gathers exactly the objects the plan drops and adds, at their catalog names |
| `DropOrder.EdgeReasons` | crates/pbps-cli/src/computed_order.rs:192-286 | the refusals an edge gives against a change, from the lists as from the plan |
| `DropOrder.Refuse` | crates/pbps-cli/src/computed_order.rs:166-286 | all refusals of the plan, and no other |
| `DropOrder.Schedule` | crates/pbps-cli/src/computed_order.rs:671-689 | an ordering edge for each pair the waits-for relation has, beside the plan's own |
| `DropOrder.OrderByEdges` | crates/pbps-cli/src/computed_order.rs:166-286 | refuses if and only if there is a reason; a cycle refusal gives every step left waiting and names the first strongly connected component among them; otherwise the plan is settled and the moved steps counted |
| `DropEngine.CallersGone` | crates/pbps-cli/src/computed_order.rs:574-641 | when a function's drop runs, no computed column calling it stands |
| `DropEngine.ReadersGone` | crates/pbps-cli/src/computed_order.rs:574-641 | when a column's drop runs, no computed column reading it stands, given that a table whose drop alone takes a reader went first |
| `DropEngine.RunNeedsTables` | crates/pbps-cli/src/computed_order.rs:574-641 | and a column's drop that runs needs that |
| `DropEngine.BoundReadersGone` | crates/pbps-cli/src/computed_order.rs:574-641 | when a computed column's drop runs, no schema-bound module over it stands |
| `DropEngine.BoundDependentsGone` | crates/pbps-cli/src/computed_order.rs:574-641 | when an object's drop runs, every module the plan drops that is bound to it is gone |
| `DropEngine.AcceptedPlansRun` | crates/pbps-cli/src/computed_order.rs:166-286 | an accepted, settled plan never meets an engine refusal of a drop if and only if, wherever a dropped column's reader goes only with its table, the table goes first |
| `DropEngine.DifferPlansRun` | crates/pbps-diff/src/schema_diff.rs:1155-1179 | so every accepted plan in which a table goes whole or loses columns runs to its end |
| `DropEngine.ColumnBeforeItsTable` | crates/pbps-cli/src/computed_order.rs:198-228 | an accepted plan of the other kind that does not |
| `DropEngine.WaitsPermutes` | crates/pbps-cli/src/computed_order.rs:574-641 | without table renames, which change waits for which does not depend on the plan's order |
| `DropEngine.PrecedencePermutes` | crates/pbps-cli/src/computed_order.rs:647-660 | so the precedence pairs are the same before and after release |
| `DropEngine.ReleaseConserves` | crates/pbps-cli/src/computed_order.rs:671-712 | the released plan has the same changes |
| `DropEngine.ReleaseIsStable` | crates/pbps-cli/src/computed_order.rs:671-712 | releasing a released plan moves nothing |
| `DropEngine.RefusalsPermute` | crates/pbps-cli/src/computed_order.rs:166-286 | the refusals do not depend on the plan's order |
| `DropDemand.WaitsIsDemanded` | crates/pbps-cli/src/computed_order.rs:574-641 | a drop waits only for a change without which the engine refuses it: with standing only what that change removes, it is refused, and once that change has run it is taken (two drops of one name aside) |
| `DropDemand.CyclesAreDemanded` | crates/pbps-cli/src/computed_order.rs:689-712 | a plan without annotations is refused as a cycle only where the engine itself demands one: from each named member to each other leads a chain of drops, each refused before the one before it has run |
| `DropDemand.MovesAreDemanded` | crates/pbps-cli/src/computed_order.rs:663-712 | a drop runs after a change listed behind it only while one the engine demands first has not run |
| `DropDemand.RefusalsExactly` | crates/pbps-cli/src/computed_order.rs:198-281 | the refusals, each with its table, column, function and words, are exactly what the engine would still say of the plan's renames, drops, retypes, nullability changes and alters once all its drops have run |
| `DropDemand.RefusedExactly` | crates/pbps-cli/src/computed_order.rs:198-286 | a plan is refused if and only if the engine would not take some change of it even then |
| `DropDemand.RefusedNeverRuns` | crates/pbps-cli/src/computed_order.rs:198-286 | a refused plan is one the engine carries out in no order |
| `DropDemand.ResolvedWaits` | crates/pbps-cli/src/computed_order.rs:574-641 | a plan that renames tables waits as the plan that spells each table, at its place, as the catalog does |
| `DropDemand.ResolvedReasons` | crates/pbps-cli/src/computed_order.rs:198-286 | and is refused as that plan is |
| `AddedCalls.FunctionsChanged` | crates/pbps-cli/src/computed_order.rs:290-311 | finds exactly the functions a plan creates, alters or drops |
| `AddedCalls.CallsAdded` | crates/pbps-cli/src/computed_order.rs:343-384 | finds exactly the calls of the computed columns it adds, with the typed columns they may be methods of |
| `AddedCalls.LastChanges` | crates/pbps-cli/src/computed_order.rs:447-460 | one scan keeps each function's last change |
| `AddedCalls.AllowedCalls` | crates/pbps-cli/src/computed_order.rs:461-481 | the exempted pairs are exactly those an annotation settles ahead, with a final create or alter |
| `AddedCalls.RefuseCall` | crates/pbps-cli/src/computed_order.rs:494-553 | the refusals of a call are exactly the changed functions it matches and is not exempt from |
| `AddedCalls.RefuseAddedCalls` | crates/pbps-cli/src/computed_order.rs:441-553 | the refusals of a plan are exactly those of its added calls, and it is passed if and only if there are none |
| `AddedCalls.RefusedExactly` | crates/pbps-cli/src/computed_order.rs:441-553 | which those are, over creates, alters and drops of functions: a call in a name of one, unless it may be a method and the function is only dropped, or is known, unambiguous and settled behind the final create or alter |
| `AddedCalls.AcceptedCallsBind` | crates/pbps-cli/src/computed_order.rs:441-553 | an accepted call matches drops only and may be a method, or matches one function, whose last change is a create or alter before the column is added |
| `Migration.Project.Migrate` | crates/pbps-cli/src/ids_cmd.rs:135-203 | the outcome and every state of the disk on the way are those of the attempt's list of writes |
| `Migration.Project.WriteFiles` | crates/pbps-cli/src/ids_cmd.rs:186-190 | writes the identity files not yet there, each by a temporary file and a rename |
| `Migration.Project.WriteAll` | crates/pbps-cli/src/ids_cmd.rs:185-195 | the files, then the delete, then the config |
| `Migration.Project.Finish` | crates/pbps-cli/src/ids_cmd.rs:138-158 | what a run does that finds no legacy file |
| `Migration.StatesArePrefixes` | crates/pbps-cli/src/ids_cmd.rs:135-203 | the states passed through are the prefixes of what is written |
| `Migration.EditSettles` | crates/pbps-cli/src/ids_cmd.rs:312-344 | an edited config is one the next run keeps |
| `Migration.WholeScript` | crates/pbps-cli/src/ids_cmd.rs:186-195 | where an uninterrupted conversion ends |
| `Migration.CrashCases` | crates/pbps-cli/src/ids_cmd.rs:135-203 | all that one killed run can do: nothing, grow the tree, remove the legacy file over a whole tree, or edit the config |
| `Migration.MigrationNeverLoses` | crates/pbps-cli/src/ids_cmd.rs:135-203 | for any number of killed runs over declarations edited in between, every legacy mapping's file is there, or every file of a tree that assembles to it |
| `Migration.CrashOnceHolds` | crates/pbps-cli/src/ids_cmd.rs:135-203 | one run, killed anywhere, keeps the mapping in use where no other mapping waits at the default path to fall back to |
| `Migration.MappingStaysExactly` | crates/pbps-cli/src/ids_cmd.rs:135-203 | over every such sequence the original file is intact or the tree assembles to its mapping, if and only if no two runs can complete, the second over a stale default file |
| `Migration.StaleDefaultOverruns` | crates/pbps-cli/src/ids_cmd.rs:331-344 | a project where two can |
| `Migration.GuardedReaderIsSafe` | crates/pbps-cli/src/ids_guard.rs:28-50 | over every such sequence a guarded reader finds the mapping or refuses, if and only if there is no stale default file or the command cannot complete |
| `Migration.StaleDefaultBelieved` | crates/pbps-cli/src/main.rs:3751-3786 | a project whose reader believes one |
| `Migration.MigrationConvergesIffNoStray` | crates/pbps-cli/src/ids_cmd.rs:138-195 | after any killed runs, one more reaches the one final state if and only if no temporary file was left, and writes nothing otherwise |
| `Migration.ConvergesForGoodExactly` | crates/pbps-cli/src/ids_cmd.rs:138-158 | every run ends there, and a further one changes nothing, if and only if the new config falls back to no file |
| `Migration.KilledBeforeRename` | crates/pbps-load/src/project.rs:246-287 | a run killed before a rename leaves a file no later run gets past |
| `Migration.ReaderAfterMigration` | crates/pbps-cli/src/main.rs:3751-3786 | after a migration a reader refuses, unless a stale mapping lies at the default path, which it then returns |
| `MigrationOutcome.KeepsLines` | crates/pbps-cli/src/ids_cmd.rs:312-330 | the config edit keeps every line but those of `ids_file`, in its place |
| `MigrationOutcome.EditExactly` | crates/pbps-cli/src/ids_cmd.rs:312-344 | the config is left alone if and only if it says so already, and edited if and only if the edit reads back to the same settings |
| `MigrationOutcome.SucceedsExactly` | crates/pbps-cli/src/ids_cmd.rs:135-203 | a run succeeds if and only if it leaves the legacy file it began with gone, identity files that can be read, where there are identities, and a config that says so; a failure writes nothing |
| `MigrationOutcome.SuccessesExactly` | crates/pbps-cli/src/ids_cmd.rs:138-158 | which success it is, by what the disk held before, and what a run without a legacy file changes |
| `MigrationOutcome.NothingExactly` | crates/pbps-cli/src/ids_cmd.rs:138-145 | nothing to migrate is the answer exactly where there is neither a legacy file nor an identity file |
| `MigrationOutcome.UnreadableExactly` | crates/pbps-cli/src/ids_cmd.rs:135-138 | when a config, a tree or a legacy file is called unreadable |
| `MigrationOutcome.ConversionExactly` | crates/pbps-cli/src/ids_cmd.rs:159-185 | of a readable project, which conversions are refused, and why, and which succeed |
| `MigrationOutcome.ResumptionExactly` | crates/pbps-cli/src/ids_cmd.rs:146-158 | without a legacy file a tree is finished unless the config cannot be edited |
| `MigrationOutcome.ReadsExactly` | crates/pbps-cli/src/main.rs:3751-3786 | a reader finds no identities exactly where there is neither a legacy file nor anything of a tree, and finds a mapping exactly where the legacy file in use holds it |
| `Adoption.Limited` | crates/pbps-cli/src/adopt.rs:364-386 | the first limitation, in reading order, of exactly the trees that have a limited partition |
| `Adoption.Pulled.Take` | crates/pbps-cli/src/adopt.rs:347-355 | a table goes with one record, or was gone already |
| `Adoption.Pulled.RemoveRefusedTables` | crates/pbps-cli/src/adopt.rs:315-331 | leaves the tables validation accepts on their own |
| `Adoption.Pulled.RemoveRefusedTrees` | crates/pbps-cli/src/adopt.rs:332-356 | leaves the tables that are no parent of a refused partition |
| `Adoption.Pulled.RemoveLimitedTrees` | crates/pbps-cli/src/adopt.rs:357-396 | leaves those that are no parent of a partition read in part |
| `Adoption.Pulled.RemoveOrphans` | crates/pbps-cli/src/adopt.rs:397-415 | leaves the partitions whose parent is still there |
| `Adoption.Pulled.RemoveModules` | crates/pbps-cli/src/adopt.rs:417-459 | leaves accepted modules, and of the triggers those with a table or view; one true record for each other |
| `Adoption.NarrowOne` | crates/pbps-cli/src/adopt.rs:461-482 | one role, judged among the objects that stayed |
| `Adoption.Pulled.NarrowRoles` | crates/pbps-cli/src/adopt.rs:461-482 | every role is narrowed or out, and every grant kept or reported |
| `Adoption.Pulled.LeaveOut` | crates/pbps-cli/src/adopt.rs:312-483 | the whole pass: what is kept, and for each table and module left out exactly one record with its true reason |
| `Adoption.KeptExactly` | crates/pbps-cli/src/adopt.rs:315-415 | a table is kept if and only if it and its partitions can be declared, and so can its parent with its own |
| `Adoption.KeptModulesExactly` | crates/pbps-cli/src/adopt.rs:417-459 | a module is kept if and only if validation accepts it and a trigger's table or view is written |
| `Adoption.ClosedWhenOneLevel` | crates/pbps-cli/src/adopt.rs:332-415 | in trees of one level every kept partition has its parent kept, is accepted and was read whole |
| `Adoption.TwoLevelsBreakClosure` | crates/pbps-cli/src/adopt.rs:397-415 | in any tree of two levels, refusing the top keeps a leaf without its parent |
| `Adoption.ClosedForEveryDialectIffOneLevel` | crates/pbps-cli/src/adopt.rs:332-415 | closed under every dialect and reading if and only if no tree has two levels |
| `Adoption.KeptParentKeepsPartitions` | crates/pbps-cli/src/adopt.rs:332-415 | there, a kept parent keeps exactly the partitions the table validator accepts |
| `Adoption.TriggersClosed` | crates/pbps-cli/src/adopt.rs:434-459 | an accepted trigger is kept if and only if what is written has its table or view |
| `Adoption.ViewsStay` | crates/pbps-cli/src/adopt.rs:514-520 | a trigger target asked before the trigger pass and after it is the same |
| `NarrowRole.Pass` | crates/pbps-cli/src/adopt.rs:541-581 | a changing pass strictly lowers the number of problems; one that changes nothing finds no single grant that would |
| `NarrowRole.NarrowRole` | crates/pbps-cli/src/adopt.rs:530-607 | ends for every validator; every grant is kept as it was or reported once, with the problems that went with it; what remains has no problem or none any single grant carries; a role goes only if narrowing did not help and it is refused with no grant |
| `NarrowRole.Discard` | crates/pbps-cli/src/adopt.rs:593-605 | a role that goes reports every grant it still held |
| `NarrowRole.AccountedAddsUp` | crates/pbps-cli/src/adopt.rs:530-607 | kept and left out add up to what the role held |
| `NarrowRole.FixedReports` | crates/pbps-cli/src/adopt.rs:552-556 | a grant left out is reported with exactly the problems its removal fixed, as often as they were reported |
| `DeclarationFile.Component` | crates/pbps-cli/src/declaration_file.rs:19-29 | encodes byte by byte |
| `DeclarationFile.DecodeEncode` | crates/pbps-cli/src/declaration_file.rs:19-29 | the encoding reads back to the name |
| `DeclarationFile.DecodeFolded` | crates/pbps-cli/src/declaration_file.rs:19-29 | folded, it reads back to the name in lower case |
| `DeclarationFile.DecodeEscaped` | crates/pbps-cli/src/declaration_file.rs:41-52 | the escape of a device name loses nothing |
| `DeclarationFile.DecodeEscapedFolded` | crates/pbps-cli/src/declaration_file.rs:41-52 | nor does it under folding, up to case |
| `DeclarationFile.NeverADevice` | crates/pbps-cli/src/declaration_file.rs:41-52 | no generated name starts with a device stem |
| `DeclarationFile.ReadableTells` | crates/pbps-cli/src/declaration_file.rs:146-171 | a readable name gives back schema, stem and kind |
| `DeclarationFile.FoldedReadableTells` | crates/pbps-cli/src/declaration_file.rs:249-280 | readable names meet under folding only if what they name differs in case alone |
| `DeclarationFile.PreimageTells` | crates/pbps-cli/src/declaration_file.rs:146-171 | what is hashed gives back schema, stem and kind of names without NUL |
| `DeclarationFile.NeverHashed` | crates/pbps-cli/src/declaration_file.rs:146-171 | readable and hashed names never meet |
| `DeclarationFile.FileNameInjective` | crates/pbps-cli/src/declaration_file.rs:146-171 | file names are injective in schema, stem and kind, given no collision of the two digests |
| `DeclarationFile.FileNameIsComponent` | crates/pbps-cli/src/declaration_file.rs:146-171 | a file name has no separator and at most 240 bytes |
| `DeclarationFile.PathsOf` | crates/pbps-cli/src/declaration_file.rs:195-236 | one path for each declaration that is not a partition |
| `DeclarationFile.RefuseFoldedPaths` | crates/pbps-cli/src/declaration_file.rs:249-280 | refuses exactly the folded spellings two paths share |
| `DeclarationFile.WriteFiles` | crates/pbps-cli/src/adopt.rs:644-719 | distinct paths give as many files, each holding its declaration |
| `DeclarationFile.WriteDeclarations` | crates/pbps-cli/src/adopt.rs:644-719 | writes if and only if all paths differ even when folded, and then every declaration has its own file |
| `DeclarationFile.TriggersShareStem` | crates/pbps-cli/src/declaration_file.rs:118-144 | two triggers share a path if and only if table and name join to the same dotted stem |
| `DeclarationFile.TriggersCollide` | crates/pbps-cli/src/declaration_file.rs:118-144 | a pair that does |
| `DeclarationFile.RefusedOnlyForCase` | crates/pbps-cli/src/declaration_file.rs:249-280 | tables and modules, readable or hashed, are refused only over case, given no collision of the two digests |
| `DeclarationPaths.ByteSpells` | crates/pbps-cli/src/declaration_file.rs:19-29 | each byte is itself or a percent sign and two upper-case digits |
| `DeclarationPaths.OrdinaryFiles` | crates/pbps-cli/src/declaration_file.rs:146-171 | ordinary names stay readable: schema, name and kind joined by dots |
| `DeclarationPaths.DevicesExactly` | crates/pbps-cli/src/declaration_file.rs:41-52 | the stems escaped are the 24 reserved ones, in any case |
| `DeclarationPaths.FiledExactly` | crates/pbps-cli/src/declaration_file.rs:195-236 | every declaration but the partitions has a file, as often as it is declared |
| `DeclarationPaths.PathsTell` | crates/pbps-cli/src/declaration_file.rs:54-236 | two declarations of any kinds, roles, extensions and types included, have folded paths apart unless they are of one kind and their names differ in case alone |
| `DeclarationPaths.PathsInjective` | crates/pbps-cli/src/declaration_file.rs:54-236 | paths equal outright are of one declaration, up to a module's stem |
| `DeclarationPaths.OverloadsTell` | crates/pbps-cli/src/declaration_file.rs:127-131 | two overloads of a routine, of argument types without commas, have two stems |
| `DeclarationPaths.OrdinaryNamesAreWritten` | crates/pbps-cli/src/adopt.rs:644-719 | where no two names of one kind differ in case alone, nothing is refused |
| `Sorting.SortsAlike` | scripts/live-shards.py:265-289 | two listings sort alike if and only if they have the same elements equally often |
| `Partition.Split` | scripts/live-shards.py:265-289 | refuses a listing exactly for a duplicate; otherwise the groups are the specified ones, cover the listing, keep Express on shard zero and are balanced: the union check never fires |
| `Partition.DealOut` | scripts/live-shards.py:268-270 | deals the sorted names in turn |
| `Partition.Spread` | scripts/live-shards.py:273-282 | gives each name to the lightest shard, the loads kept up to date |
| `Partition.FindLightest` | scripts/live-shards.py:280 | the first of the lightest |
| `Partition.Hash` | scripts/live-shards.py:283-287 | each group has the names whose digest falls there |
| `Partition.GroupsCover` | scripts/live-shards.py:313-315 | in all four modes the groups hold every name as often as listed |
| `Partition.GroupsPermute` | scripts/live-shards.py:265-289 | in all four modes the split is the same for every order of the listing |
| `Partition.GroupsKeepExpress` | scripts/live-shards.py:292-294 | in all modes but the round robin, Express tests are only in group zero |
| `Partition.RoundRobinSpreadsExpress` | scripts/live-shards.py:268-270 | the round robin can put one elsewhere |
| `Partition.WeightedBalances` | scripts/live-shards.py:273-282 | a shard exceeds another by at most the weight of any non-Express test it was given, whatever Express load shard zero began with |
| `Partition.PutBalances` | scripts/live-shards.py:279-282 | giving a test no heavier than those before to the lightest shard keeps the balance |
| `Assignment.GroupsSorted` | scripts/live-shards.py:289 | every group is in the order of its names |
| `Assignment.HashedExactly` | scripts/live-shards.py:283-287 | without weights a test goes where the digest of its identity says, an Express test to shard zero |
| `Assignment.PinnedExactly` | scripts/live-shards.py:271-272 | a pinned invocation is on shard zero alone |
| `Assignment.RoundRobinExactly` | scripts/live-shards.py:268-270 | in the CI split a test goes by the number of names before it |
| `Assignment.WeightedExactly` | scripts/live-shards.py:273-282 | by weight a test goes to the first of the shards least loaded with Express tests and the tests ahead of it, heavier or as heavy and first by name |
| `Receipts.ReadShard` | scripts/live-shards.py:440-459 | a shard reads back as its receipts and its unanswered obligations, or is refused if and only if a receipt contradicts its obligation |
| `Proxy.ReportedIsPrinted` | scripts/live-shards.py:626-644 | a name is reported if and only if an active line printed it; without repetition, once and as printed |
| `Proxy.CompleteMeansOncePrinted` | scripts/live-shards.py:648-655 | a valid run printed every assigned test exactly once and no other, and a zero exit means all passed |
| `Proxy.FailureRemembered` | scripts/live-shards.py:633-642 | a failure of a name printed once stays in the results |
| `Proxy.RepeatedNameHidesFailure` | scripts/live-shards.py:633-642 | a repeated name can lose its failure, in a run that is never valid |
| `Transcript.ValidExactly` | scripts/live-shards.py:648-655 | a receipt is valid if and only if, over the runner's own lines, there is one header of the right count, each test of the share and no other is reported once, there is one summary with those counts, and the exit code is zero exactly if none failed |
| `Transcript.InterruptedExactly` | scripts/live-shards.py:656-660 | and interrupted if and only if it broke off cleanly in failure before the summary |
| `Transcript.NamesExactly` | scripts/live-shards.py:626-644 | the names it holds are those some line in a list of results reports |
| `Transcript.LastResultStands` | scripts/live-shards.py:633-640 | each with the status of its last line |
| `Proxy.NextIsFresh` | scripts/live-shards.py:718-722 | the next occurrence of a command names no file of an earlier one |
| `Proxy.Oblige` | scripts/live-shards.py:729-741 | what is proven is carried, and the rest is split as every shard of the run splits it; refused only if the list changed since |
| `Proxy.Shard.RunTests` | scripts/live-shards.py:618-647 | every state while the lines are read is safe to be killed in |
| `Proxy.Shard.Perform` | scripts/live-shards.py:735-768 | publishes, runs and stores the final receipt, through safe states only |
| `Proxy.Shard.Invoke` | scripts/live-shards.py:710-770 | one invocation through safe states, under a fresh key, leaving other invocations alone |
| `Proxy.KilledIsHonest` | scripts/live-shards.py:735-768 | wherever it is killed, the directory holds only what proxies of this run write |
| `Proxy.KilledReadsBack` | scripts/live-shards.py:440-459 | wherever it is killed, the shard reads back with a row for the invocation unless the head changed; a valid row is the final one; every failure forwarded is stored |
| `Audit.CutShortIsLost` | scripts/live-shards.py:656-660 | a run cut short, or an obligation unanswered, is lost work and never proof |
| `Audit.AuditInvocation` | scripts/live-shards.py:857-908 | accepts an invocation if and only if its rows satisfy the stated rules, with its counts and lost names |
| `Audit.Totals` | scripts/live-shards.py:897-912 | the report adds up the invocations and names the losses of each |
| `Audit.AuditSuite` | scripts/live-shards.py:845-912 | reads all shards and accepts if and only if they agree and every invocation does |
| `Audit.Fates` | scripts/live-shards.py:867-906 | missing, covered and carried together are the listing, with multiplicity |
| `Audit.LossIsExact` | scripts/live-shards.py:867-906 | every listed name is exactly one of carried, reported by a valid receipt, and missing; no other name is any |
| `Audit.StrictGapsAreEmpty` | scripts/live-shards.py:867-906 | the strict audit has nothing missing to record |
| `Audit.StrictImpliesDiagnostic` | scripts/live-shards.py:845-912 | what the strict audit accepts the diagnostic one accepts, with nothing missing |
| `Audit.InvocationConserves` | scripts/live-shards.py:867-908 | passed, carried and failed add up to the listing |
| `Audit.AuditConserves` | scripts/live-shards.py:845-912 | over the suite, passed plus failed is the number of listed names |
| `Audit.ReportedByItsShard` | scripts/live-shards.py:867-906 | a listed name is carried, or reported by exactly the one shard it was assigned to |
| `Reckoning.AuditsExactly` | scripts/live-shards.py:845-912 | over obligations and receipts alone: the audit accepts a suite if and only if no receipt contradicts its obligation, no shard came out empty-handed or with another number of invocations, and each invocation is accounted for |
| `Reckoning.InvocationExactly` | scripts/live-shards.py:857-908 | what that is: the shards agree on one split of the listing, each finished its own group or, where tolerated, was stopped in it, and Express stays on shard zero |
| `Reckoning.TotalsExactly` | scripts/live-shards.py:897-912 | the totals count each shard's results of each invocation, and the names carried into it as passed |
| `Reckoning.LossesExactly` | scripts/live-shards.py:867-906 | the losses named are exactly the tests of the shards that did not finish |
| `Resume.ExcusedExactly` | scripts/live-shards.py:572-592 | a test's failures pass the branches if and only if it has none, or no retry was spent on it and it is an unclaimed flake with at most two in all, or its first failure has evidence |
| `Resume.ReadRow` | scripts/live-shards.py:573-594 | one receipt's results, in whatever order, do to the reading what is stated per name |
| `Resume.ResumeInvocation` | scripts/live-shards.py:553-598 | an invocation is refused exactly if its receipts are inconsistent |
| `Resume.InvocationReads` | scripts/live-shards.py:565-598 | proven is what is carried or passed in a valid receipt and failed in none; counts are the history plus this run's failures |
| `Resume.LoadResume` | scripts/live-shards.py:503-615 | accepts a run if and only if it is acceptable, and what it hands on |
| `Resume.AcceptsExactly` | scripts/live-shards.py:503-615 | acceptable means readable, every failure excused, the evidence exactly the uncovered failures, and every earlier retry with its pass |
| `Resume.AcceptedReached` | scripts/live-shards.py:553-598 | what an accepted resume hands on for an invocation the run reached |
| `Resume.AcceptedUnreached` | scripts/live-shards.py:599-603 | and for one it did not: what it was itself given |
| `Resume.TargetsExactly` | scripts/live-shards.py:579-614 | the retries handed on are those handed in and those for a failure of the run itself that no register entry covers, and no others |
| `ResumeRule.ReadableExactly` | scripts/live-shards.py:503-571 | a run can be read if and only if its head, inputs, suites and snapshot are the ones asked for and its shards' files agree with them and each other |
| `ResumeRule.ResumesExactly` | scripts/live-shards.py:503-615 | a run may be resumed if and only if it can be trusted so, each failure its receipts count is a flake's within budget and unclaimed, or a first one with evidence, all evidence is needed and every earlier retry passed |
| `ResumeRule.ProvenExactly` | scripts/live-shards.py:565-601 | the proofs handed on: of an invocation that began, what was carried or passed in a valid receipt and failed in none; of one that did not, what was inherited |
| `ResumeRule.FailuresExactly` | scripts/live-shards.py:566-603 | the failures handed on are those counted before and the run's own |
| `Resume.ReachedExactly` | scripts/live-shards.py:546-554 | the invocations read are those with a row in some shard |
| `Chain.Continue` | scripts/live-shards.py:990-1036 | a run starts from an accepted resume and records what it was given; killed before its manifest it leaves none, so it can never be resumed |
| `Chain.ChainGrows` | scripts/live-shards.py:990-1036 | a run continued from a chain's last run makes a longer chain, whatever its proxies write |
| `Chain.ContinuesInherit` | scripts/live-shards.py:1012-1036 | a continued run inherits exactly what the resume proved and names the run it continues |
| `Chain.SnapshotIsSealed` | scripts/live-shards.py:466-492 | its snapshot exchanged for one with another digest, or missing, makes every resume be refused |
| `Chain.ShardsSplitAlike` | scripts/live-shards.py:265-289 | shards that listed one invocation in different orders, under one identity and pinning, split it alike |
| `Chain.ProvenSound` | scripts/live-shards.py:462-615 | every proof handed on was a pass, in a valid receipt of the same head and inputs, by the run it names, and no later run was given the test |
| `Chain.KilledProvesNothing` | scripts/live-shards.py:572-598 | resuming a run whose shard has no valid receipt proves no test of its share |
| `Chain.CleanAudit` | scripts/live-shards.py:845-912 | an audit reporting no failure means none in any receipt |
| `Chain.AuditedFate` | scripts/live-shards.py:867-906 | audited without failures, a name passed in this run or was carried into it |
| `Chain.ChainSafety` | scripts/live-shards.py:503-912 | after a clean audit of a chain's last run, every listed test passed in a valid receipt of some run on the same head and inputs and was given to no later run |
| `Chain.HeadRecordedExactly` | scripts/live-shards.py:845-912 | the last run's receipts name its head for every test it passed if and only if no shard with work lost it |
| `Chain.CleanWithoutHead` | scripts/live-shards.py:845-912 | a run the audit accepts whose receipt names no head |
| `Chain.CountsAreTotals` | scripts/live-shards.py:566-603 | a manifest's count is the number of failures in all runs before it, so it never falls |
| `Chain.BudgetKept` | scripts/live-shards.py:572-615 | over a whole chain a test fails at most twice before the next resume; an unregistered one once, with evidence |
| `Chain.TargetedOnce` | scripts/live-shards.py:526-534 | a resume past a retry needs the retried test to have its pass, wherever the retry got to, and to fail in no invocation of its command |
| `Chain.SpentRetryRefused` | scripts/live-shards.py:607-614 | a retry without its pass, or failed again, refuses every resume |
| `Chain.TargetedStays` | scripts/live-shards.py:1032-1036 | a chain never forgets a retry |
| `Chain.TargetedAcrossChain` | scripts/live-shards.py:607-614 | so in every later resumed run it did not fail again and was proven |
| `Chain.RetryFromFailure` | scripts/live-shards.py:579-614 | the retries a run of a chain knows of are exactly those for the one failure of a test in an earlier run, covered by no register entry and named by that resume's evidence |
| `Chain.LossIsWhatResumeLacks` | scripts/live-shards.py:1150-1164 | what the diagnostic audit misses is what the resume finds unproven |
| `Chain.RerunIsExactlyTheLost` | scripts/live-shards.py:1167-1183 | the rerun is given exactly the lost names |
| `Claims.Ledger.Create` | scripts/gate_rerun.py:220-227 | creation succeeds exactly if the file was not there |
| `Claims.Ledger.Claim` | scripts/gate_rerun.py:211-227 | claims in order up to the first test taken, and what was created stays |
| `Claims.FailedIsWaivedOrRetried` | scripts/live-shards.py:577-592 | every failed test of an accepted resume is retried with evidence, or waived and was unclaimed when asked |
| `Resume.AcceptsAsked` | scripts/live-shards.py:572-606 | a resume is accepted if and only if it would be with no claims and every waived test is found unclaimed |
| `Claims.StepsDecideResume` | scripts/live-shards.py:577-592 | a driver that asks the ledger test by test decides as the resume does with those answers |
| `Claims.InvariantHolds` | scripts/gate_rerun.py:200-227 | in every interleaving drivers hold disjoint claims, and one that started holds all of its own |
| `Claims.AtMostOneClaim` | scripts/gate_rerun.py:200-227 | whatever is killed in between, a test of a head is only ever claimed by one driver |
| `Claims.AtMostOneRetry` | scripts/gate_rerun.py:200-227 | at most one driver ever starts a retry of a test of a head, even where the first was killed before the second starts |
| `ClaimRuns.ClaimsAsTheLedger` | scripts/gate_rerun.py:211-227 | undisturbed, a claiming driver takes the steps of the loop: it starts with all its tests claimed, or stops at the first one taken and leaves the claims it made |
| `ClaimRuns.UnclaimedStarts` | scripts/live-shards.py:988-1003 | and a driver with an acceptable run starts if none of its tests is claimed |
| `ClaimRuns.StoppedAnywhere` | scripts/gate_rerun.py:211-227 | a driver may be killed wherever it is |
| `Claims.StartedWereUnclaimed` | scripts/live-shards.py:577-592 | a driver that starts found no failed test of its own claimed when it began |
| `Claims.LateResumeNeverStarts` | scripts/live-shards.py:988-1003 | once a claim exists, no resume that begins later of a run in which that test failed starts, by waiver or by retry |

## Left out

- Operating-system plumbing of the gate: `FixtureRun`, containers, ports, memory sampling, signals and process groups. Only the order of persistent writes is kept.
- Parsing: JSON, libtest text, command lines and Git output are typed values; `listed_tests` appears as the requirement that a listing has no duplicates, and a receipt that cannot be parsed is not modelled beyond a refusal.
- Seconds in receipts, the measured weights and the summary file: timing takes no part in what counts as passed. Weights are positive reals and their median is a parameter.
- The list of waived register entries a resume writes beside its verdict: a record, not a decision.
- `gate_rerun.load` and `proof`: the Git scope and the two isolated passes behind an evidence entry enter as the set of tests it names.
- The Python and Cargo suites of `check_shard` and the CI entry `ci_shard`: the same protocol with one test an invocation, or without obligations.
- Honesty of the directory: the chain results take receipts as written by the run's own proxies, which is what `Proxy.KilledIsHonest` establishes; edited receipts are outside, beyond what `load_resume` itself refuses.
- Chain.KilledProvesNothing: takes the shards to run an invocation under one identity and one pinning, and the run to have one frozen set of weights; that they then split it alike is `Chain.ShardsSplitAlike`.
- Chain.TargetedOnce: a second failure counts in the invocations whose command prefix is the retried test's own, as the code compares them.
- Partition.WeightedBalances: real weights; rounding of floating-point loads is not modelled.
- Claims.Ledger.Claim: the evidence written into a claim file is not modelled, since its existence alone is what is asked.
- Digests: `sha256` is a function parameter. File names assume the two digests compared do not collide; the claims need no such assumption.
- The collation's spellings, `PlanNames` over the identity file, and the class order of a draft plan: the first two are parameters, and the run of accepted plans takes the names in the plan as resolved.
- DropEngine.AcceptedPlansRun: covers drops of functions, columns, computed columns, tables and modules; renames, retypes, nullability changes and module alterations are refused if a reader stands to the end (`DropDemand.RefusedExactly`), but the class order that puts them after the drops is the differ's and is not run.
- DropDemand.WaitsIsDemanded: two drops of objects of one name are left aside, since the engine of the model drops both at once.
- DropDemand.RefusedExactly: takes the collation as transitive and no dropped table to bear the name of a schema-bound module, which share one namespace in the catalog.
- DeclarationPaths.PathsTell: takes a type's canonical spelling to tell its name, since the spelling is what is hashed and it parses back.
- DeclarationPaths.OverloadsTell: argument types without commas; a quoted type name that holds one is outside.
- DropOrder.OrderByEdges: guesses and declared-only cycles of `settled_trace`, its kept orders and obligations, the remedy text and the hoisting tie are not modelled, because the drop order states catalog edges with the sinking tie; components are found by reachability, not by Tarjan's algorithm.
- `ids_tree::split` with `place`, `assemble` and the config parser: functions of the model with the round trip the command itself asks for. A migration of an empty mapping writes no file and is outside the convergence result.
- The temporary file of the config edit: its leftover is not in the identity tree and stops nothing.
- Other commands: `ids fmt`, `ids resolve`, `doctor`, `dev`, hooks, emission and cost reports.
- Adoption's order of records, and `declarable_grants` (a parameter): each record is there once; the map order it is written in is not modelled.
- `leave_out_cluster_roles_without_grants` and the staged check after the pass: easy filters.
