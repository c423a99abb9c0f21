# minimap core, modelled in Dafny

This project models three pieces of the minimap ticket tracker's Rust code. It proves properties about each of them.

- **The in-memory workspace** (`minimap-core/src/workspace/memory.rs`).
  - It is an append-only log of records, kept per named collection.
  - Each collection's head names its newest record. Every record names its parent, so a collection is a linked list threaded through one map of records.
  - `MemoryWorkspace` is a class whose fields are updated in place. It has the id counter `total_ids`, `heads`, `records` and the attachment pool.
  - The builder, the walk iterator and the set iterator are classes beside it.
  - The workspace invariant (`Memory.WorkspaceInv`) says:
    - every head names a stored record;
    - every parent is stored and was made earlier than its child;
    - every stored id comes from a counter value already used;
    - every attachment is stored under its own content id;
    - every attachment a record names is in the pool.
  - Every state-changing method keeps this invariant. Each one states the new walk of every collection.
- **The dependency-origin registry** (`minimap-core/src/deps.rs`) and **the built-in `minimap` origin** (`minimap-core/src/deps/minimap.rs`).
  - Origins are values with a slug and an abstract status function.
  - The registry is a class holding the map of origins.
  - The built-in origin splits endpoints of the form `remote@ticket-slug` and maps ticket states to dependency statuses.
- **The command-line front end** (`minimap-cli/src/main.rs`), up to the point where it opens the workspace. It covers:
  - expansion of `-abc` and `--key=value`;
  - the pre-command split and its options (`--help`, `--version`, `-C`);
  - subcommand dispatch;
  - the option loops of `workspace name`, `workspace description` and `project create`;
  - project-slug validation;
  - the "set only if different" rule applied once the workspace is open.

  Each loop is a method proved equal to a specification function, for example `Cli.ParseMetaArgs` against `Cli.MetaSpec` and `Cli.ParseCreateArgs` against `Cli.CreateOutcome`. Lemmas then give those functions their meaning in terms of the arguments: which inputs are refused, and what each accepted option sets.

Two behaviours of the command line need a note:
- A `--` among the pre-command options ends the split, as the loop at main.rs:59-73 intends. When the option handler reaches it, it treats it as an unknown argument and exits with the usage code 2. `Cli.PmainUsageFirst` proves this for a leading `--`. A `--` right after `-C` is taken as the directory instead, and a failed `-C dir` before it ends with code 1 first. The model keeps this as written.
- `-C` followed by an ordinary directory never changes directory (see Findings). This is modelled as written by `Cli.PrecommandCountAsWritten` and `Cli.PmainAsWritten`. The program model (`Cli.SplitPrecommand`, `Cli.Pmain`, `Cli.PmainSpec`) uses the corrected split, in which `-C` takes its directory along. `Cli.SplitsAgree` proves the two splits agree on every command line without `-C`.

Files:
- `core.dfy`: shared datatypes (`Option`, `Result`, `SetOperation`, `DependencyStatus`, `TicketState`, `Error`).
- `ids.dfy`: record and attachment ids.
- `memory.dfy`: the in-memory workspace.
- `deps_minimap.dfy`: the built-in origin.
- `deps.dfy`: the registry.
- `cli.dfy`: the command line.

## Model

| member | source | states |
|---|---|---|
| Ids.ParseHexInvertsHex | minimap-core/src/workspace/memory.rs:50 | the lower-case hexadecimal text of the id counter reads back as the counter's value |
| Ids.RecordIdInjective | minimap-core/src/workspace/memory.rs:48-54 | two counter values give the same record id exactly when they are equal, so each call of `next_id` yields a new id |
| Ids.ParseContentIdInvertsContentId | minimap-core/src/workspace/memory.rs:76-83 | the content id of attachment bytes reads back as those bytes |
| Ids.ContentIdInjective | minimap-core/src/workspace/memory.rs:76-83 | two attachments get the same id exactly when their bytes are equal, so the pool never maps one id to two contents |
| MinimapOrigin.Split | minimap-core/src/deps/minimap.rs:16 | a split always yields at least one piece, and no piece contains the separator |
| MinimapOrigin.SplitCount | minimap-core/src/deps/minimap.rs:16-20 | a string splits into more than one piece exactly when it contains the separator, so reading the first piece never fails |
| MinimapOrigin.SplitWhole | minimap-core/src/deps/minimap.rs:16 | text without the separator splits into itself alone |
| MinimapOrigin.SplitFirst | minimap-core/src/deps/minimap.rs:16 | the split stops at the first separator and goes on with the rest |
| MinimapOrigin.JoinSplit | minimap-core/src/deps/minimap.rs:16 | joining the pieces of a split with the separator gives back the text |
| MinimapOrigin.SplitJoin | minimap-core/src/deps/minimap.rs:16 | splitting a join of separator-free pieces gives back the pieces |
| MinimapOrigin.ParseEndpoint | minimap-core/src/deps/minimap.rs:16-23 | a failure is `MalformedEndpoint(endpoint)`; a success yields a remote and a ticket slug, neither containing `@` |
| MinimapOrigin.ParseEndpointFails | minimap-core/src/deps/minimap.rs:17-23 | an endpoint is malformed exactly when it contains no `@` |
| MinimapOrigin.ParseEndpointOf | minimap-core/src/deps/minimap.rs:16-23 | `R@T`, or `R@T@...`, with `R` and `T` free of `@`, parses as remote `R` and ticket `T`; empty pieces are accepted and text after a second `@` is ignored |
| MinimapOrigin.ParseEndpointShape | minimap-core/src/deps/minimap.rs:16-23 | conversely, a parsed endpoint begins with remote, `@` and ticket, and anything after that begins with `@` |
| MinimapOrigin.StatusOf | minimap-core/src/deps/minimap.rs:28 | an open ticket is `Pending` and a closed one `Complete`, in both directions |
| MinimapOrigin.Status | minimap-core/src/deps/minimap.rs:12-29 | an endpoint that fails to parse gives `MalformedEndpoint(endpoint)` whatever the remote holds |
| MinimapOrigin.StatusMalformed | minimap-core/src/deps/minimap.rs:17-23 | an endpoint without `@` is `MalformedEndpoint` for every ticket lookup |
| MinimapOrigin.StatusOfTicket | minimap-core/src/remote/git.rs:605-629 | for `remote@ticket`, the status is `Pending` exactly when the ticket is open, `Complete` exactly when it is closed, and a failed lookup is passed on unchanged |
| Deps.BuiltinOrigin | minimap-core/src/deps/minimap.rs:8-10 | the built-in origin's slug is `minimap`, and it answers every endpoint with the endpoint parse and ticket status |
| Deps.ValidateOriginSlug | minimap-core/src/deps.rs:54-60 | a slug is refused exactly when it is `_`, `minimap` or contains `@`, and the error is `MalformedOrigin(slug)` |
| Deps.Registered | minimap-core/src/deps.rs:80-85 | an invalid slug leaves the origins unchanged; a valid one inserts or replaces that key only; the `minimap` entry and the reserved `_` are never registered over |
| Deps.Resolve | minimap-core/src/deps.rs:89-98 | `_` gives `MalformedOrigin("_")` whatever is registered; an unknown slug gives `UnknownOrigin(slug)`; a known slug gives its origin's answer, with failures wrapped as `Origin` |
| Deps.ResolveRegistered | minimap-core/src/deps.rs:80-97 | after a valid registration, status lookups for the new slug are answered by the new origin: its status on success, its error wrapped as `Origin` on failure |
| Deps.ResolveMinimap | minimap-core/src/deps.rs:94-95 | through the seeded `minimap` origin, `remote@ticket` is pending or complete exactly as the ticket is open or closed, and an endpoint without `@` is a wrapped `MalformedEndpoint` |
| Deps.DependencyRegistry.constructor | minimap-core/src/deps.rs:71-77 | a new registry holds exactly one origin, the built-in one under `minimap` |
| Deps.DependencyRegistry.Register | minimap-core/src/deps.rs:80-85 | returns the slug's validation result; the new origins are `Registered(old origins, origin)`; the registry invariant is kept (the built-in entry stays, `_` stays free, every origin sits under its own slug) |
| Deps.DependencyRegistry.Status | minimap-core/src/deps.rs:89-98 | the answer is `Resolve` over the registry's origins |
| Memory.SameRecordIsEquality | minimap-core/src/workspace/memory.rs:31-35 | for stored records, the crate's id-only equality coincides with equality of the whole record |
| Memory.ChainShape | minimap-core/src/workspace/memory.rs:165-183 | a walk from a stored id starts at that record, yields only stored records, steps each time to the parent of the record before, ends at a record without a parent, and meets records newest first; a walk from no head is empty |
| Memory.ChainUnchangedByInsert | minimap-core/src/workspace/memory.rs:286 | storing a new record changes no walk that does not start at it |
| Memory.ChainFromInserted | minimap-core/src/workspace/memory.rs:283-287 | the walk from a newly stored record is that record followed by the walk from its parent |
| Memory.InsertKeepsLinked | minimap-core/src/workspace/memory.rs:286 | storing a record made after all others, whose parent is stored, keeps parents stored and older than their children |
| Memory.StoreKeepsInvariant | minimap-core/src/workspace/memory.rs:286-287 | storing a fresh record and moving a head to it keeps the workspace invariant |
| Memory.StoreHistories | minimap-core/src/workspace/memory.rs:286-287 | after the store, the collection's walk is the new record followed by its old walk; every other collection's walk is unchanged |
| Memory.Overlay | minimap-core/src/workspace/memory.rs:262-273 | a name with a pending `Some(id)` maps to `id`; a name with a pending `None` is absent; any other name keeps the parent's entry |
| Memory.OverlayNothing | minimap-core/src/workspace/memory.rs:262-273 | a builder with no pending changes keeps the parent's attachments |
| Memory.OverlayUpdate | minimap-core/src/workspace/memory.rs:267-273 | overlaying one more change equals applying that change after the others |
| Memory.OverlayOfPendingIsSequential | minimap-core/src/workspace/memory.rs:239-249 | collecting upserts and removals in the builder and applying them at commit equals applying each call in order, so the last call for a name wins |
| Memory.MemoryWorkspace.constructor | minimap-core/src/workspace/memory.rs:67-73 | a new workspace has its author and email, a zero counter and no heads, records or attachments |
| Memory.MemoryWorkspace.NextId | minimap-core/src/workspace/memory.rs:48-54 | the counter goes up by exactly one, and the id returned is the id of the new counter value and is not yet stored |
| Memory.MemoryWorkspace.InsertAttachment | minimap-core/src/workspace/memory.rs:76-83 | the bytes are stored under their content id, which is returned; the pool stays content-addressed |
| Memory.MemoryWorkspace.Store | minimap-core/src/workspace/memory.rs:286-287 | the record is stored under its id and the collection's head moves to it; nothing else is stored; the collection's walk becomes the new record then its old walk, and every other walk is unchanged |
| Memory.MemoryWorkspace.HistoriesAfterStore | minimap-core/src/workspace/memory.rs:286-287 | the walks over the workspace after a store, stated against the records and heads before it |
| Memory.MemoryWorkspace.Walk | minimap-core/src/workspace/memory.rs:92-99 | the iterator's remaining records are the collection's walk from its head |
| Memory.MemoryWorkspace.WalkSet | minimap-core/src/workspace/memory.rs:125-127 | the set iterator's remaining items are the set reading of each record of the walk, in walk order |
| Memory.MemoryWorkspace.RecordBuilder | minimap-core/src/workspace/memory.rs:101-103 | a new builder for the collection has no op and no pending changes |
| Memory.MemoryWorkspace.GetRecord | minimap-core/src/workspace/memory.rs:129-132 | a stored id gives its record, whose id is that id; any other id gives `None` |
| Memory.MemoryWorkspace.SetAddUnchecked | minimap-core/src/workspace/memory.rs:105-113 | appends a record with op `Add`, the message, the given timestamp and the workspace's author and email; its id is `RecordId` of the stepped counter; its parent is the old head and its attachments are the parent's; the attachment pool is unchanged; the walk gains that record in front and the other walks stay |
| Memory.MemoryWorkspace.SetDelUnchecked | minimap-core/src/workspace/memory.rs:115-123 | the same as `SetAddUnchecked`, with op `Del` |
| Memory.MemoryIterator.Next | minimap-core/src/workspace/memory.rs:169-182 | yields the first remaining record and leaves the rest; yields nothing once the walk is over |
| Memory.MemorySetIterator.Next | minimap-core/src/workspace/memory.rs:192-207 | yields the set reading of the next record: `(record, op)` when it has an op, `Malformed("record <id> is not a set operation")` otherwise; nothing once the walk is over |
| Memory.MemoryRecordBuilder.constructor | minimap-core/src/workspace/memory.rs:219-226 | a builder starts with no op and no pending changes |
| Memory.MemoryRecordBuilder.Op | minimap-core/src/workspace/memory.rs:228-233 | sets the op and keeps the pending changes |
| Memory.MemoryRecordBuilder.UpsertAttachment | minimap-core/src/workspace/memory.rs:239-244 | stores the data in the pool and records `Some(content id)` for the name |
| Memory.MemoryRecordBuilder.RemoveAttachment | minimap-core/src/workspace/memory.rs:246-249 | records `None` for the name |
| Memory.MemoryRecordBuilder.Commit | minimap-core/src/workspace/memory.rs:251-290 | the counter goes up by one and the record gets the new id; its parent is the old head (none without one); its attachments are the parent's with the pending changes overlaid; it carries the builder's op, message, timestamp and author. It is stored and made the head; the pool is unchanged; the collection's walk gains it in front and every other walk is unchanged |
| Memory.MemoryRecordBuilder.ApplyPending | minimap-core/src/workspace/memory.rs:262-273 | the loop over pending changes, in any order, yields `Overlay(parent attachments, pending)` |
| Memory.Collect | minimap-core/src/workspace/memory.rs:165-183 | draining a walk iterator yields exactly its remaining records, in order |
| Memory.CollectSet | minimap-core/src/workspace/memory.rs:188-207 | draining a set iterator yields exactly its remaining items, in order |
| Memory.CommitThenGet | minimap-core/src/acceptance-tests.inc.rs:18-27 | a committed record with message `test` is read back by its id |
| Memory.WalkNewestFirst | minimap-core/src/acceptance-tests.inc.rs:29-44 | two commits on a collection get distinct ids and walk back as the second then the first, then nothing |
| Memory.AppendAll | minimap-core/src/workspace/memory.rs:105-123 | appending set operations one by one puts their messages and ops at the front of the walk, newest first |
| Memory.ScenarioOpsNewestFirst | minimap-core/src/acceptance-tests.inc.rs:50-56 | the seven operations of the set-walk scenario, newest first |
| Memory.SetItemsOfSummary | minimap-core/src/workspace/memory.rs:199-200 | a walk whose records all carry ops yields each record with its op through the set iterator |
| Memory.ScenarioSetItems | minimap-core/src/acceptance-tests.inc.rs:58-71 | a walk made of the scenario's operations yields the scenario's seven pairs through the set iterator |
| Memory.SetWalkNewestFirst | minimap-core/src/acceptance-tests.inc.rs:46-72 | after the seven adds and deletes of the scenario, the set walk yields exactly the seven `(message, op)` pairs the test expects, newest first |
| Cli.SplitOnce | minimap-cli/src/main.rs:37 | no result exactly when the character is absent; otherwise the text is the part before, the character and the part after, and the part before does not contain the character |
| Cli.SplitOnceAtFirst | minimap-cli/src/main.rs:37 | a split at the first occurrence of the character is the one found |
| Cli.ExpansionMeaning | minimap-cli/src/main.rs:30-57 | `--key=value` becomes `--key`, `value` split at the first `=`; `--flag` without `=` stays; `-abc` becomes one `-x` per letter; a lone `-` and anything not starting with `-` stay whole |
| Cli.ExpansionWord | minimap-cli/src/main.rs:52-54 | an argument not starting with `-`, or a lone `-`, is its own expansion |
| Cli.ExpansionShortFlag | minimap-cli/src/main.rs:44-46 | a two-character short flag such as `-C` is its own expansion |
| Cli.ExpandedAllAppend | minimap-cli/src/main.rs:30 | expanding a command line is expanding each argument in order |
| Cli.ExpandedAllPlain | minimap-cli/src/main.rs:52-54 | arguments that do not start with `-` pass through expansion unchanged |
| Cli.ExpandArg | minimap-cli/src/main.rs:31-56 | the closure's pushes build exactly `Expansion(arg)` |
| Cli.ExpandArgs | minimap-cli/src/main.rs:30-57 | the flat-map builds the expansion of every argument, in order |
| Cli.PrecommandCount | minimap-cli/src/main.rs:59-73 | the split as corrected (see Findings) never runs past the command line; its meaning is stated by `SplitStep`, `SplitChdir` and `SplitsAgree` |
| Cli.SplitStep | minimap-cli/src/main.rs:63-71 | at an argument starting with `-`, the split ends just after `--`, takes `-C` with the argument after it, and otherwise takes the argument and goes on |
| Cli.SplitPrecommand | minimap-cli/src/main.rs:59-75 | the loop, with `-C` taking its directory along, yields the split's pre-command options, the next argument as the subcommand (none at the end), and the rest in order as its arguments |
| Cli.PrecommandVerdict | minimap-cli/src/main.rs:77-101 | the pre-command options either let the subcommand run or end with code 1 (`-C`) or the usage code 2 |
| Cli.PrecommandVerdictNone | minimap-cli/src/main.rs:77-101 | the subcommand runs exactly when the options are all `-C dir` pairs whose directory changes succeed; anything else ends the program |
| Cli.DirsEntered | minimap-cli/src/main.rs:85-90 | the directories entered are those of the leading `-C dir` pairs, in order, each one a change that succeeded, and at most one per pair |
| Cli.DirsEnteredAll | minimap-cli/src/main.rs:77-101 | when the subcommand runs, every pre-command option pair entered its directory |
| Cli.HandlePrecommand | minimap-cli/src/main.rs:77-101 | the option loop returns `PrecommandVerdict`: 2 for `--help`, `--version` or anything unknown, 1 for a `-C` without a directory or a failed change; it also returns the directories entered, `DirsEntered` |
| Cli.MetaSpecEmpty | minimap-cli/src/main.rs:243-245 | no arguments mean not verbose, idempotent and no value |
| Cli.MetaSpecSnoc | minimap-cli/src/main.rs:247-288 | reading one more argument updates what the arguments before it mean exactly as the loop body does |
| Cli.UnknownSnoc | minimap-cli/src/main.rs:275-278 | one more argument holds an unknown flag exactly when the arguments before did or it is one |
| Cli.MetaSpecStops | minimap-cli/src/main.rs:275-283 | once the arguments read so far end the command with code 2, the whole command line ends with code 2 |
| Cli.HelpIsNoFlag | minimap-cli/src/main.rs:249-267 | `--help` is refused like any unknown flag, with code 2 |
| Cli.ParseMetaArgs | minimap-cli/src/main.rs:242-288 | the option loop of `workspace name` (and the identical one of `workspace description`, lines 320-368) gives the usage code exactly when some `-` argument is neither `-v`/`--verbose` nor `-f`/`--force` or more than one value is given. Otherwise it gives verbose iff `-v` appears, idempotent iff `-f` does not, and the single value if any |
| Cli.MetaOutcome | minimap-cli/src/main.rs:290-317 | with a value: exit 0; the value is set when `-f` is given, and otherwise exactly when it differs from the current one. With no value: nothing is set; exit 0 when a current value exists and 1 when none does (likewise lines 370-397) |
| Cli.MetaOutcomeSettles | minimap-cli/src/main.rs:292-303 | giving a value always leaves it current, and giving it again without `-f` sets nothing |
| Cli.OptionAt | minimap-cli/src/main.rs:470-507 | reading one option of `project create` moves forward; `-d` and `-n` consume the next argument when there is one |
| Cli.Scan | minimap-cli/src/main.rs:440-521 | reading the options stops only with the usage code 2 |
| Cli.ScanSnoc | minimap-cli/src/main.rs:440-521 | reading one more option applies one loop step to the options read before |
| Cli.ScanStops | minimap-cli/src/main.rs:440-521 | once an option ends the command, later options cannot revive it |
| Cli.NoneRefusedSnoc | minimap-cli/src/main.rs:440-521 | one more option leaves no refused option exactly when none was refused before and it is not refused |
| Cli.AdmissibleInit | minimap-cli/src/main.rs:440-521 | options that can all be taken together stay so when the last is dropped |
| Cli.ScanMeaningStepOk | minimap-cli/src/main.rs:461-519 | after admissible options, one more option that is not refused succeeds exactly when the options stay admissible, and then records what they say |
| Cli.StepSwitch | minimap-cli/src/main.rs:461-469 | `-v`, `-e` and `-l` always succeed and set their flag only |
| Cli.StepDescription | minimap-cli/src/main.rs:470-488 | `-d <text>` succeeds exactly when no description was given before, and then records it |
| Cli.StepName | minimap-cli/src/main.rs:489-507 | `-n <text>` succeeds exactly when no name was given before, and then records it |
| Cli.StepSlug | minimap-cli/src/main.rs:512-519 | a positional succeeds exactly when no slug was given before, and then records it |
| Cli.ScanMeaningStep | minimap-cli/src/main.rs:440-521 | success iff admissibility, and the recorded options, are kept by each further option |
| Cli.ScanMeaning | minimap-cli/src/main.rs:440-521 | reading the options succeeds exactly when none is refused (`--help`, an unknown `-` argument, `-d`/`-n` without a following argument that does not start with `-`) and `-d`, `-n` and the slug each occur at most once; it then holds the switches, description, name and slug given |
| Cli.CreateOutcomeMeaning | minimap-cli/src/main.rs:431-529 | `project create` gives code 2 exactly when an option is refused, `-d` or `-n` repeats, or there is not exactly one slug. Otherwise it holds the switches given (verbose, allow-existing, allow-lowercase), the single slug, and the description and name given |
| Cli.CreateOutcomeStops | minimap-cli/src/main.rs:440-521 | an option that ends the loop ends `project create` with code 2 |
| Cli.CreateOutcomeOf | minimap-cli/src/main.rs:523-529 | once every option is read, a missing slug gives code 2 and otherwise the options read are the outcome |
| Cli.CreateStep | minimap-cli/src/main.rs:440-521 | one loop step: either `project create` ends with code 2, or the arguments read so far are one option longer |
| Cli.ReadCreateOption | minimap-cli/src/main.rs:441-520 | the loop body's branches compute exactly one step of the option reading, and where the next option starts |
| Cli.ParseCreateArgs | minimap-cli/src/main.rs:431-529 | the option loop and the missing-slug check give exactly `CreateOutcome`, whose meaning `CreateOutcomeMeaning` states |
| Cli.SlugRefused | minimap-cli/src/main.rs:531-543 | a slug is accepted exactly when every character is an ASCII upper-case letter or digit, or a lower-case letter when `-l` is given |
| Cli.CmdProjectCreate | minimap-cli/src/main.rs:431-545 | parsing then slug validation, before the workspace is opened, give exactly `CreateInvocation` |
| Cli.CmdWorkspace | minimap-cli/src/main.rs:209-240 | `name` and `description` run their option loops; anything else, `--help` and no subcommand included, gives code 2 |
| Cli.CmdProject | minimap-cli/src/main.rs:400-429 | `create` runs its option loop; anything else gives code 2 |
| Cli.Pmain | minimap-cli/src/main.rs:24-111 | expansion, the pre-command split (as corrected, see Findings), the pre-command options and dispatch together give exactly `PmainSpec`, and the directories entered are `PmainDirs` |
| Cli.ExpandedAllCons | minimap-cli/src/main.rs:30-57 | an argument that is its own expansion stays in front of the expanded rest |
| Cli.ExpandedAllWord | minimap-cli/src/main.rs:52-54 | a first argument not starting with `-` stays first and whole |
| Cli.PmainNoPrecommand | minimap-cli/src/main.rs:59-111 | a command line whose first argument does not start with `-` dispatches on that argument with the rest expanded |
| Cli.PmainUsageFirst | minimap-cli/src/main.rs:78-99 | a leading `--help`, `--version` or `--` ends with code 2, whatever follows |
| Cli.UsageFlagExpanded | minimap-cli/src/main.rs:36-43 | `--help`, `--version` and `--` pass through expansion unchanged |
| Cli.AfterSplitUsage | minimap-cli/src/main.rs:80-99 | pre-command options starting with `--help`, `--version` or `--` end with code 2 |
| Cli.PmainChdirAlone | minimap-cli/src/main.rs:85-94 | a lone `-C` ends with code 1 |
| Cli.ChdirAloneExpanded | minimap-cli/src/main.rs:44-46 | `-C` alone passes through expansion unchanged |
| Cli.ChdirAloneSplit | minimap-cli/src/main.rs:85-94 | `-C` as the only pre-command option ends with code 1 |
| Cli.PmainEmpty | minimap-cli/src/main.rs:110 | an empty command line ends with code 2 |
| Cli.ScenarioNameExpanded | minimap-cli/src/main.rs:44-46 | `name -vf Acme` expands to `name -v -f Acme` |
| Cli.ScenarioNameOptions | minimap-cli/src/main.rs:247-288 | `-v -f Acme` is verbose, forced, setting `Acme` |
| Cli.PmainWorkspaceName | minimap-cli/src/main.rs:213 | `workspace name -vf Acme` runs `workspace name` verbose and forced with the value `Acme` |
| Cli.ScenarioCreateOptions | minimap-cli/src/main.rs:440-529 | `alpha` and `-l alpha` give the slug `alpha`, without and with lowercase allowed |
| Cli.ScenarioTokens | minimap-cli/src/main.rs:467-519 | `alpha` reads as one slug and `-l alpha` as a switch then a slug |
| Cli.ScenarioScans | minimap-cli/src/main.rs:467-519 | reading those options records the slug and the lowercase switch |
| Cli.PmainProjectCreate | minimap-cli/src/main.rs:404 | `project create ...` with no pre-command options is `project create` on the rest, expanded |
| Cli.DispatchCreate | minimap-cli/src/main.rs:105 | `project` followed by `create` reaches the create loop |
| Cli.ScenarioCreateInvocations | minimap-cli/src/main.rs:531-536 | the slug `alpha` is refused without `-l` and accepted with it |
| Cli.ScenarioCreateExpanded | minimap-cli/src/main.rs:44-54 | `alpha` and `-l alpha` pass through expansion unchanged |
| Cli.PmainLowercaseRefused | minimap-cli/src/main.rs:531-536 | `project create alpha` ends with code 2 before the workspace is opened |
| Cli.PmainLowercaseAllowed | minimap-cli/src/main.rs:531-545 | `project create -l alpha` goes on to create project `alpha` with lowercase allowed |
| Cli.PrecommandCountAsWrittenMeaning | minimap-cli/src/main.rs:59-73 | as written, the split takes a run of arguments starting with `-`, none but the last being `--`, and stops at the end, at an argument not starting with `-`, or just after `--` |
| Cli.PmainChdirPathIgnored | minimap-cli/src/main.rs:59-73 | as written: `-C dir ...` with `dir` not starting with `-` ends with code 1 and enters no directory, whatever follows and whether or not `dir` exists |
| Cli.ChdirPathExpanded | minimap-cli/src/main.rs:44-54 | `-C` and an ordinary directory stay two arguments through expansion |
| Cli.PmainChdirPath | minimap-cli/src/main.rs:85-90 | with the corrected split, `-C dir` first enters `dir`, then goes on as if it had not been given; when the change fails it ends with code 1 and enters no directory |
| Cli.AfterSplitChdir | minimap-cli/src/main.rs:85-90 | handling `-C dir` before further options changes to `dir` then handles the rest, or ends with code 1 |
| Cli.SplitChdir | minimap-cli/src/main.rs:59-73 | the corrected split takes `-C dir` and then splits the rest as before |
| Cli.SplitsAgree | minimap-cli/src/main.rs:59-73 | on command lines without `-C`, the corrected split is the split as written |

## Left out

- SHA-256 is not modelled. `next_id` (memory.rs:48-54) and `insert_attachment` (memory.rs:76-83) hash their text. The model keeps the hashed text itself: the counter's hex form inside `MINIMAPINMEMORY::…::MINIMAPINMEMORY`, and the hex of the attachment bytes. It proves both encodings injective. The crate relies on SHA-256 collision resistance for the same property.
- The workspace's `Arc<Mutex<State>>` is not modelled. The model is single-threaded: the iterators read the workspace's fields directly, and there is no lock guard. Clones of a `MemoryWorkspace` that share one state are not modelled.
- `SystemTime::now()` in `commit` is not modelled. The timestamp is a parameter of `Commit`, `SetAddUnchecked` and `SetDelUnchecked`.
- The `Record` trait getters (memory.rs:135-160) are plain field reads of the `MemoryRecord` datatype.
- `Memory.MemoryIterator.Next`: yields `Option<MemoryRecord>` rather than `Option<Result<MemoryRecord>>`, because the in-memory walk never yields an error.
- `Memory.MemoryWorkspace.NextId`: does not model wrap-around of the 64-bit `total_ids`, because the counter is unbounded here and 2^64 commits are out of reach.
- `Memory.MemoryRecordBuilder.ApplyPending`: visits the pending names in an arbitrary order, because HashMap iteration order is unspecified. The result is proved the same for every order.
- The ticket lookup is not modelled. `GitRemote::open`, `Workspace::open`, `ticket` and `state` (deps/minimap.rs:24-28) do git and network I/O. They become the `TicketLookup` parameter, which yields a ticket state or the error met; errors are passed on unchanged.
- `DependencyOrigin` is a trait object in the crate. It is modelled as a datatype: a slug and a status function, with errors as the shared `Error` type.
- The project, ticket and set layers of `minimap-core/src/lib.rs`, and the git workspace and remote, are not part of this model. Only the in-memory workspace's operations are modelled.
- `open_workspace` (main.rs:166-207) is not modelled: directory ascent, device-boundary check, TOML parsing and remote opening. Every command is modelled up to that call, and `Cli.Invocation.Run` stands for reaching it. Errors after it (exit 1 at main.rs:115-118) are not modelled.
- `Cli.CmdProjectCreate`: stops before `create_project` and the `--allow-existing` exit codes (main.rs:545-573), because they need the opened workspace.
- `Cli.MetaOutcome`: reduces the workspace to the current value, the message of the latest name or description record. It states the exit code and whether a set happens, not the record printed.
- Output is not modelled: all `eprintln!`/`println!` text, `print_record` and `timestamp_to_iso8601` (chrono). `show_usage` is modelled only by its exit code 2.
- `std::process::exit` is not modelled; the exit code is the result.
- `std::env::set_current_dir` is a parameter, `chdir`, that says whether the change of directory succeeds. The directories entered are recorded (`Cli.DirsEntered`, `Cli.PmainDirs`); the working directory itself is not.
- Cli.PmainChdirPath, Cli.PrecommandVerdict: `chdir` answers once for each path for the whole run, so the model does not capture that a relative directory after an earlier `-C` resolves against the directory entered before it.
- The desktop client (its router, UI components and build tooling), `playground.rs` and the application shell are not part of this model.

## Findings

| source | as written | input that shows it | evidently intended | confidence | as-written member | corrected member |
|---|---|---|---|---|---|---|
| minimap-cli/src/main.rs:59-73 | the pre-command split stops at the first argument not starting with `-`, so the directory after `-C` becomes the subcommand and `-C` is handled without its argument (main.rs:91-93) | `minimap -C /tmp workspace name` ends with "missing argument to `-C`" and exit code 1 without changing directory | `-C` takes the next argument as its directory, changes to it and dispatches the rest | high; not executed | Cli.PmainChdirPathIgnored | Cli.PmainChdirPath |
