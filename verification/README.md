# agentpane: a Dafny model of its bookkeeping and status logic

agentpane manages tmux sessions that host coding agents (codex, claude) and
shells. It keeps a small persisted store of sessions and panes. It merges
that store with what tmux reports. It judges whether each agent is running,
idle or gone, and it shows the result in a list overlay.

This project models the sequential decision logic behind all of this.
Every effect is a parameter or an input value: tmux, files, the environment,
the clock, the regular-expression engine, the PATH lookup and `ps`. The model
is written in immutable datatypes and pure functions. Two scans use loops.

Modules, following the program's packages:

- `Wrappers`, `Text`: `Option`/`Result`, and the Go string helpers the code
  relies on (`TrimSpace`, `ToLower`, `Contains`, `HasPrefix`, `Fields`,
  `strconv` parsing, decimal printing).
- `Domain`, `PaneTypeFacts`: pane types, sessions and panes, `ParsePaneType`
  and the pane-type inference rule with its facts.
- `StateStore`: the persisted `Store`.
- `Reconcile`: `state.Reconcile`, which merges the store with the live
  sessions (recreated sessions, orphans, new panes, title fixes).
- `AppReconcile`: the application's pass around it (server-id
  invalidation, conversion of tmux rows, title fixes, saving).
- `AgentState`: state-file words, tool matching, freshness, the
  environment knobs, and the tail-of-output scans.
- `Providers`: the provider registry, the `ps` parser and the
  process-tree liveness verdict.
- `TmuxParse`: tmux table rows, with a round trip against the format
  strings.
- `Configuration`: configuration merge and validation.
- `Up`: session-name sanitising, choosing the panes, automatic titles,
  free session names.
- `Snapshots`: the live snapshot with persisted titles and types, layout
  capture, search.
- `StoreEdits`: the store edits of close, rename and add.
- `TemplateApply`: applying a template and the sorted store write.
- `OverlayToggle`, `CliAdd`: shell quoting and overlay defaults, and the
  command-line pane-type parser.
- `OverlayView`, `OverlayUpdate`: the overlay's lines, and the cursor and
  selection logic.

Go map iteration order is unspecified. Where the output depends on it
(`OrphanedPanes`/`NewPanes` across sessions, error order in the
global-configuration check), the visiting order is a parameter. The
properties are stated per session or as sets.

One behaviour of the code is kept as written and is worth knowing.
`ApplyTemplate` returns an error whenever the session has panes and
`--force` is not given. It also returns an error when the session has no
panes at all. A tmux session always has at least one pane, so applying a
template without `--force` always fails (internal/app/apply_template.go:58-71).

## Model

| member | source | states |
|---|---|---|
| Domain.ParsePaneType | internal/domain/helpers.go:8-19 | succeeds exactly when the trimmed, lower-cased input is codex, claude or shell; the value is that normal form and never unknown |
| Domain.InferPaneType | internal/domain/helpers.go:21-40 | the verdict is one of the four types; a command containing "codex" always gives codex; a command containing "claude" but not "codex" gives claude; shell is never the verdict when the command names an agent |
| Domain.InferPaneTypeFromPane | internal/domain/helpers.go:42-44 | a pane's type is inferred from its current command and its title |
| PaneTypeFacts.CommandDecidesBeforeTitle | internal/domain/helpers.go:21-28 | when the command names an agent the title cannot change the verdict, and the verdict is not shell |
| PaneTypeFacts.TitleDecidesOtherwise | internal/domain/helpers.go:30-38 | with an agent-free command, a trimmed lower-cased title prefix codex, claude or shell decides the type |
| PaneTypeFacts.InferUnknownIff | internal/domain/helpers.go:21-39 | unknown is the verdict exactly when neither the command nor the title names a type |
| PaneTypeFacts.ParsePaneTypeExamples | internal/domain/helpers.go:8-19 | "codex" parses to codex, "bad" is an error, and " Shell " parses to shell |
| PaneTypeFacts.InferPaneTypeExamples | internal/domain/helpers_test.go:15-25 | the command "codex" gives codex, the title "claude-1" gives claude, the title "random" gives unknown |
| StateStore.NewStore | internal/state/types.go:25-30 | a new store has version 1, no server id and no sessions |
| StateStore.LoadOrNew | internal/app/state_helpers.go:10-19 | a loaded store is used as is; any load error gives a new empty store |
| Reconcile.InferType | internal/state/reconcile.go:154-172 | the reconciler's own copy of the inference rule agrees with the domain rule on every pane |
| Reconcile.CreatePaneState | internal/state/reconcile.go:145-152 | a new record keeps the pane's id and title, takes the inferred type, is stamped with the clock reading and has no rename time |
| Reconcile.CreatePaneStates | internal/state/reconcile.go:133-134 | one new record per live pane, in live order, with the live ids |
| Reconcile.NewPaneInfos | internal/state/reconcile.go:135-139 | one new-pane report per live pane, in live order, carrying session name, pane id and inferred type |
| Reconcile.CreateSessionState | internal/state/reconcile.go:126-143 | a fresh session record takes the live path and creation time and lists the live panes; every pane is reported as new; no orphans and no title fixes |
| Reconcile.SweepPartitions | internal/state/reconcile.go:93-108 | a recorded pane is kept iff it is live, its id is an orphan iff it is not, and every record is one or the other |
| Reconcile.SweepSingle | internal/state/reconcile.go:93-108 | one record on its own is an orphan when not live, else kept, with a fix carrying its recorded title when tmux shows another title |
| Reconcile.SweepPersisted | internal/state/reconcile.go:93-108 | the loop over the recorded panes; SweepPartitions, SweepSingle and SweepAppend together fix its kept records, fixes and orphans as the records filtered by liveness, in order |
| Reconcile.SweepAppend | internal/state/reconcile.go:93-108 | the records are swept in order: kept records, fixes and orphans of two runs are those of the first run followed by those of the second |
| Reconcile.SweepFixes | internal/state/reconcile.go:100-106 | a fix is emitted for every kept pane whose live title differs from the recorded one, and every fix names a live pane showing another title and carries a record's id and title |
| Reconcile.FreshPanes | internal/state/reconcile.go:110-113 | a live pane is listed as unseen exactly when its id has no record |
| Reconcile.FreshPanesAppend | internal/state/reconcile.go:110-113 | the unseen panes of two runs of live panes are those of the first run followed by those of the second, so live order is kept |
| Reconcile.FreshPanesSingle | internal/state/reconcile.go:110-113 | a single live pane is unseen exactly when its id has no record |
| Reconcile.LastIndexOfId | internal/state/reconcile.go:83-86 | a live pane map keyed by id finds the last pane listed with that id |
| Reconcile.FreshRecordMatchesLive | internal/state/reconcile.go:126-143 | a fresh record lists exactly the live pane ids |
| Reconcile.KeptAndUnseenMatchLive | internal/state/reconcile.go:93-121 | kept records followed by records of unseen panes list exactly the live pane ids |
| Reconcile.ReconcileSession | internal/state/reconcile.go:71-124 | every pane of the result is live and every live pane has a record; path and creation time come from the live session when it was recreated and from the record otherwise; new-pane reports name the session and a live pane |
| Reconcile.RecreatedIsRebuilt | internal/state/reconcile.go:72-75 | a recorded time that is set and a live time more than 2 s later rebuilds the session: all live panes are new, no orphans, no fixes |
| Reconcile.Recreated | internal/state/reconcile.go:72 | the recreation test: a set recorded time and a live time more than 2 s later; RecreatedIsRebuilt, TwoSecondsIsSameSession and ZeroTimeIsSameSession pin its boundary |
| Reconcile.TwoSecondsIsSameSession | internal/state/reconcile.go:72 | a live creation time exactly 2 s after the recorded one is not a recreation |
| Reconcile.ZeroTimeIsSameSession | internal/state/reconcile.go:72 | a record without a creation time is never rebuilt |
| Reconcile.LivePaneKept | internal/state/reconcile.go:93-108 | a recorded pane that is still live stays unchanged in the record, and a fix carrying its recorded title exists iff the live title differs |
| Reconcile.OrphanIff | internal/state/reconcile.go:93-98 | a pane id is an orphan iff it is recorded and not live, and orphans are not in the updated record |
| Reconcile.AllLiveKeepsRecordFirst | internal/state/reconcile.go:93-121 | when every recorded pane is live, the recorded panes come first in recorded order, followed by the new panes in live order |
| Reconcile.NothingKnownAllNew | internal/state/reconcile.go:110-121 | when no live pane is recorded, every live pane is reported new, in live order |
| Reconcile.MatchingRecordIsFixedPoint | internal/state/reconcile.go:77-121 | a record that already matches the live panes is returned unchanged with no orphans and no new panes |
| Reconcile.SecondPassIsQuiet | internal/state/reconcile.go:71-124 | reconciling the result against the same live session again changes nothing and reports no new or orphaned panes |
| Reconcile.LiveByName | internal/state/reconcile.go:46-49 | the live sessions keyed by name, holding every live name, a later duplicate replacing an earlier one |
| Reconcile.Pass | internal/state/reconcile.go:51-66 | walking names in map order stores each walked session's record and leaves every other entry alone |
| Reconcile.PassGathers | internal/state/reconcile.go:51-66 | earlier reports stay and every walked session's reports are added |
| Reconcile.PassSound | internal/state/reconcile.go:51-66 | a loop adds no report that a walked session did not emit |
| Reconcile.GatherAt | internal/state/reconcile.go:51-66 | after both loops a name has a record iff it is live, taken from the merge for a recorded session and from the creation otherwise |
| Reconcile.GatherReports | internal/state/reconcile.go:51-66 | every walked session's reports appear in the output |
| Reconcile.GatherOrphans | internal/state/reconcile.go:51-66 | orphans come only from the first loop |
| Reconcile.GatherFixes | internal/state/reconcile.go:51-66 | title fixes come only from the first loop |
| Reconcile.GatherNewPanesWithin | internal/state/reconcile.go:51-66 | new-pane reports name only the sessions the outcomes name |
| Reconcile.Merges | internal/state/reconcile.go:51-58 | the sessions that are both recorded and live, each reconciled against its live session |
| Reconcile.Creations | internal/state/reconcile.go:60-66 | the live sessions without a record, each given a fresh record |
| Reconcile.Reconcile | internal/state/reconcile.go:33-69 | the output copies the store's version and server id |
| Reconcile.ReconciledSessions | internal/state/reconcile.go:51-66 | the output holds exactly the live sessions: a recorded live one is reconciled, a live-only one is created, a recorded one that is gone is dropped |
| Reconcile.LiveOnlySessionAllNew | internal/state/reconcile.go:60-66 | every pane of a live session without a record is reported new with its inferred type |
| Reconcile.MergedSessionReported | internal/state/reconcile.go:51-58 | whatever a recorded live session emits is in the output |
| Reconcile.ReconcileGathers | internal/state/reconcile.go:33-69 | the output is the two loops run over the merged and created outcomes |
| Reconcile.OrphansComeFromLiveSessions | internal/state/reconcile.go:51-98 | every orphan was emitted by a recorded session that is still live |
| Reconcile.FixesComeFromLiveSessions | internal/state/reconcile.go:51-108 | every title fix was emitted by a recorded session that is still live |
| Reconcile.NewPanesNameLiveSessions | internal/state/reconcile.go:110-139 | every new-pane report names a live session |
| AppReconcile.AtoiDefault | internal/app/reconcile.go:128-134 | the value a 64-bit Atoi reads, or 0 when it fails |
| AppReconcile.AtoiDefaultDecimal | internal/app/reconcile.go:128-134 | a printed 64-bit integer is read back exactly |
| AppReconcile.ParseCreatedAt | internal/app/reconcile.go:120-126 | the zero time exactly when the field does not parse or is not positive, otherwise that many seconds after the epoch |
| AppReconcile.ParseCreatedAtDecimal | internal/app/reconcile.go:120-126 | a printed positive count of seconds comes back as that time; zero and negative ones give the zero time |
| AppReconcile.ConvertPane | internal/app/reconcile.go:105-115 | id, title, command and path are copied, index and pid read with the default-0 parser, type and status left unknown |
| AppReconcile.ConvertPanes | internal/app/reconcile.go:103-118 | one pane per row in the same order, with the same ids |
| AppReconcile.ConvertSession | internal/app/reconcile.go:91-97 | name and path copied, creation time parsed, attached exactly when the raw field is "1", panes converted |
| AppReconcile.ConvertSessions | internal/app/reconcile.go:84-101 | succeeds iff every pane listing succeeded, then one session per row in order; otherwise fails with the first failing listing's error |
| AppReconcile.HexEncode | internal/app/reconcile.go:76-82 | two lower-case hex digits per byte |
| AppReconcile.EnsureServerId | internal/app/reconcile.go:58-74 | a lookup error is returned; a set non-empty id is kept; otherwise the id is the 32-digit hex of the random bytes, and only if storing it succeeded; a returned id is never empty |
| AppReconcile.ServerIdIsStable | internal/app/reconcile.go:58-74 | once made and stored, the id read back is kept whatever the random source gives |
| AppReconcile.PrepareStore | internal/app/reconcile.go:22-33 | a load failure, or a store written under another server id, gives an empty version-1 store; otherwise the loaded sessions and version are kept; the live server id is recorded in every case |
| AppReconcile.PrepareStoreIdempotent | internal/app/reconcile.go:30-33 | preparing an already prepared store for the same server changes nothing |
| AppReconcile.FailedIdsIff | internal/app/reconcile.go:49-53 | an id is logged iff some title update for it failed |
| AppReconcile.ApplyTitleFixes | internal/app/reconcile.go:49-53 | every update is tried in order, and a failure is logged without stopping the loop |
| AppReconcile.RunReconcile | internal/app/reconcile.go:16-56 | a server-id or listing error stops the run before any title is set or anything is saved; otherwise the reconciled store is saved after every title fix was tried, and the save error is the run's result |
| AppReconcile.ServerChangeRebuildsEverything | internal/app/reconcile.go:30-33 | after a server change every live session gets a fresh record with all its panes, the store is version 1 and nothing is orphaned |
| AgentState.MapStatus | internal/agentstate/state.go:100-110 | running exactly for the three running words (trimmed, case-folded); the flag is set exactly for those and the nine settled words; the status is otherwise idle |
| AgentState.MapStatusNormalised | internal/agentstate/state.go:101 | only the trimmed, case-folded word matters |
| AgentState.MatchesTool | internal/agentstate/state.go:112-123 | codex fits exactly codex and unknown panes, claude exactly claude and unknown panes, any other tool (empty included) fits every pane |
| AgentState.MatchesToolUnknownAndOwn | internal/agentstate/state.go:112-123 | an unknown pane fits every tool, a pane fits the tool of its own name, and a codex tool rejects shell and claude panes |
| AgentState.UpdatedAt | internal/agentstate/state.go:85-90 | the zero time exactly for a non-positive stamp, otherwise the stamp's milliseconds as nanoseconds while that fits in 64 bits |
| AgentState.Sub | internal/agentstate/state.go:97 | the difference of two times when it fits in 64 bits, otherwise the largest or the smallest duration, on the side it overflows |
| AgentState.IsFresh | internal/agentstate/state.go:92-98 | never fresh without a stamp; otherwise fresh exactly when the time since the stamp is at most the time-to-live |
| AgentState.FreshWindow | internal/agentstate/state.go:92-98 | exactly ttl after the stamp is fresh, one nanosecond later is not, and freshness holds at every earlier moment since the stamp |
| AgentState.KnobValue | internal/agentstate/state.go:125-150 | a trimmed setting that parses as a positive integer is used, anything else gives the default |
| AgentState.KnobValueDecimal | internal/agentstate/state.go:125-150 | a printed positive number is taken as is; unset, zero or negative settings give the default |
| AgentState.KnobDefaults | internal/agentstate/state.go:16-20 | unset knobs give 30 s, 20 s and 40 lines |
| AgentState.SecondsAsWritten | internal/agentstate/state.go:137 | the setting times one second in wrapping 64-bit arithmetic, exact while it fits |
| AgentState.Seconds | internal/agentstate/state.go:137 | a positive setting in seconds, capped at the longest duration, always positive |
| AgentState.SecondsMonotone | internal/agentstate/state.go:137 | a larger setting never gives a shorter duration |
| AgentState.TtlWrapsNegative | internal/agentstate/state.go:134-141 | the setting 9223372037 gives a negative time-to-live as written, the longest duration once corrected |
| AgentState.Ttl | internal/agentstate/state.go:134-141 | a positive time-to-live from the knob, 30 s by default |
| AgentState.IdleWrapsNegative | internal/agentstate/state.go:125-132 | the setting 9223372037 gives a negative idle threshold as written, the longest duration once corrected |
| AgentState.IdleThreshold | internal/agentstate/state.go:125-132 | the corrected idle threshold: a positive duration from the knob, saturating at the longest duration, 20 s by default |
| AgentState.OutputLines | internal/agentstate/state.go:143-150 | a positive line count from the knob, 40 by default |
| AgentState.EnvOrDefault | internal/agentstate/state.go:236-241 | a trimmed non-blank setting, else the default |
| AgentState.MustCompile | internal/agentstate/state.go:224-234 | the configured expression if it compiles, else the fallback if that compiles, else none |
| AgentState.CompileMatcher | internal/agentstate/state.go:214-222 | each expression is its setting or default, replaced by the default when it does not compile |
| AgentState.DefaultsKeepMatcher | internal/agentstate/state.go:214-234 | when the defaults compile the matcher always has both expressions |
| AgentState.Kept | internal/agentstate/state.go:160-163 | a line is looked at exactly when it is not blank after trimming |
| AgentState.NonBlankTrimmed | internal/agentstate/state.go:160-163 | every line the scans look at is non-blank and trimmed |
| AgentState.NonBlank | internal/agentstate/state.go:159-163 | the lines the scans look at are at most the lines given; with NonBlankAppend and NonBlankTrimmed they are, in order, exactly the trimmed lines that are not blank |
| AgentState.NonBlankAppend | internal/agentstate/state.go:159-163 | dropping blank lines distributes over concatenation, so the kept lines stay in output order |
| AgentState.LastN | internal/agentstate/state.go:159 | the last n elements, or all of them when there are fewer |
| AgentState.ScanTail | internal/agentstate/state.go:159-168 | walking back from the end over non-blank lines, a line is accepted iff some line among the last limit non-blank ones is accepted |
| AgentState.MatchOutput | internal/agentstate/state.go:152-170 | (running, true) iff the running expression matches one of the last 8 non-blank trimmed lines, else (idle, false) |
| AgentState.IsClaudeSendLine | internal/agentstate/state.go:265-279 | true iff the line contains "↵ send" or "⏎ send", or ends in "send" after trimming and shows one of the two return symbols |
| AgentState.IsCodexContextLine | internal/agentstate/state.go:254-263 | a line is Codex's footer exactly when its lower-cased text contains "context left"; the "shortcuts" test returns true on both branches and so adds nothing |
| AgentState.SymbolContained | internal/agentstate/state.go:272-274 | looking for a symbol in the lowered line is looking for it in the line |
| AgentState.MatchPrompt | internal/agentstate/state.go:172-205 | never running; the flag is set iff there is a prompt expression and one of the last 4 non-blank lines is a context-left line, a send line or matches the prompt |
| AgentState.LastNonEmptyLine | internal/agentstate/state.go:243-252 | the last non-blank trimmed line, or "" exactly when there is none |
| Providers.NewRegistry | internal/provider/registry.go:22-46 | exactly codex, claude and shell are registered, each filed under its own type with title prefix "<type>-"; codex and claude run programs of their own name, the shell has an empty command and executable; there are no overrides |
| Providers.IsAvailable | internal/provider/registry.go:61-71 | a type is available exactly when it is registered and its executable is empty or found on the path; GetWithFallback relies on it to choose shell |
| Providers.Get | internal/provider/registry.go:48-59 | nothing for an unregistered type; otherwise the stored provider, differing only in the command when the type is overridden |
| Providers.Override | internal/provider/registry.go:82-84 | afterwards the type reads with the new command, every other type reads as before, and the stored providers are untouched |
| Providers.OverrideLastWins | internal/provider/registry.go:82-84 | a later override for the same type replaces an earlier one |
| Providers.RegistriesWellFormed | internal/provider/registry.go:22-84 | a new registry, and any registry after an override, files each provider under its own type and holds a shell provider needing no executable |
| Providers.GetWithFallback | internal/provider/registry.go:61-80 | the requested type when it is available, else shell; in a well-formed registry there is always a provider of the reported type, and that type is available |
| Providers.FallbackToShellExample | internal/provider/registry_test.go:9-23 | a codex provider whose executable is not on PATH falls back to the shell provider |
| Providers.OverrideCommandExample | internal/provider/registry_test.go:25-36 | after overriding codex with "codex --foo", getting codex gives that command |
| Providers.ParsePsLine | internal/provider/status.go:73-95 | a line is skipped iff it has fewer than three fields; the command name is the third field; with exactly three fields the arguments are empty |
| Providers.ParsePs | internal/provider/status.go:72-97 | the snapshot is the rows read from the lines of the ps output; PsRows gives at most one process per line in order, and PsLineRoundTrip reads a printed process back as itself |
| Providers.FieldsProcessOf | internal/provider/status.go:82-94 | pid and ppid are read with Atoi (0 on a syntax error), the command is the third field and the arguments the rest joined by single spaces |
| Providers.PsLineOfWords | internal/provider/status.go:74-94 | a line of at least three single-space-separated fields reads as those fields |
| Providers.PsLineRoundTrip | internal/provider/status.go:73-95 | a process printed as ps prints it reads back as itself |
| Providers.PsRows | internal/provider/status.go:72-97 | at most one process per line, in line order |
| Providers.ChildrenOf | internal/provider/status.go:41-44 | the children index holds no more pids than the snapshot |
| Providers.ProcessTable | internal/provider/status.go:42-46 | every pid of the snapshot is in the table, each entry being a row with that pid |
| Providers.ChainTail | internal/provider/status.go:106-116 | a chain of descendants without its first step is a chain below that step |
| Providers.HasMatchComplete | internal/provider/status.go:100-119 | every matching descendant chain within the depth bound is found |
| Providers.HasMatchSound | internal/provider/status.go:100-119 | every match found comes with a matching descendant chain within the depth bound |
| Providers.HasMatchIff | internal/provider/status.go:100-119 | the walk answers yes iff a chain of present descendants within the bound ends at a process whose command or arguments contain the executable |
| Providers.HasMatch | internal/provider/status.go:100-119 | the recursive walk over the children; HasMatchIff states it answers yes iff a bounded chain of present descendants ends at a process whose command or arguments contain the executable |
| Providers.DetectStatus | internal/provider/status.go:28-57 | shell panes are active; a non-positive pid, a failed snapshot or a type without an executable give unknown; otherwise active iff a descendant shows the executable, else exited |
| Providers.ChildRanked | internal/provider/status.go:41-44 | in a snapshot ranked without cycles, a child ranks below its parent |
| Providers.ChainBounded | internal/provider/status.go:106-116 | in a ranked snapshot a chain is no longer than the rank of its start |
| Providers.DetectStatusAcyclic | internal/provider/status.go:53-56 | without cycles the depth bound loses nothing: active iff some matching chain of descendants exists |
| Providers.ChildlessPaneExited | internal/provider/status.go:53-56 | the pane process itself is never tested: an agent pane with no children has exited |
| TmuxParse.SplitRow | internal/tmux/parse.go:19-23 | a non-empty line splits into at least one field, on the escaped separator when the line holds it, else on the raw one |
| TmuxParse.Step | internal/tmux/parse.go:14-27 | one line either adds its fields as a row or is skipped |
| TmuxParse.Rows | internal/tmux/parse.go:12-29 | at most one row per line, each with at least the expected number of fields |
| TmuxParse.ParseTable | internal/tmux/parse.go:9-30 | the rows of the output's lines; ParseTableRoundTrip states that rows printed one per line parse back as themselves |
| TmuxParse.RowsAppend | internal/tmux/parse.go:12-29 | rows follow line order: two blocks of lines give the first block's rows then the second's |
| TmuxParse.RowsSingle | internal/tmux/parse.go:14-27 | a line gives a row exactly when it is non-empty and has enough fields; longer rows are kept |
| TmuxParse.ParseSessions | internal/tmux/parse.go:32-44 | one session per row with at least four fields, fields 0 to 3 taken positionally, never an error |
| TmuxParse.ParsePanes | internal/tmux/parse.go:46-60 | one pane per row with at least six fields, fields 0 to 5 taken positionally, never an error |
| TmuxParse.ParseIntField | internal/tmux/parse.go:62-68 | a blank string is an error; otherwise the result is Ok exactly when Atoi accepts the trimmed text, with Atoi's value |
| TmuxParse.ParseIntFieldDecimal | internal/tmux/parse.go:62-68 | a printed 64-bit integer parses back |
| TmuxParse.SessionFields | internal/tmux/formats.go:6-9 | the session format prints four fields |
| TmuxParse.PaneFields | internal/tmux/formats.go:11-16 | the pane format prints six fields |
| TmuxParse.LinesOfRender | internal/tmux/parse.go:10 | the lines of text ending in line feeds are those lines plus the empty piece after the last one |
| TmuxParse.SplitRowOfJoin | internal/tmux/parse.go:19-23 | a line joined from clean fields with the raw separator splits back into those fields |
| TmuxParse.RowsOfJoined | internal/tmux/parse.go:12-29 | printed rows with enough clean fields are read back as they were |
| TmuxParse.ParseTableRoundTrip | internal/tmux/parse.go:9-30 | printing rows one per line and parsing the text gives the rows back |
| TmuxParse.ParseSessionsRoundTrip | internal/tmux/parse.go:32-44 | sessions printed with the session format parse back to themselves when no field holds a separator or line break |
| TmuxParse.ParsePanesRoundTrip | internal/tmux/parse.go:46-60 | panes printed with the pane format parse back to themselves under the same condition |
| TmuxParse.SplitEscapedRow | internal/tmux/parse.go:20-23 | a line whose fields are separated by the escaped separator is split on it |
| TmuxParse.EscapedRowParses | internal/tmux/parse.go:9-30 | such a line gives that row when it has enough fields |
| TmuxParse.ParsePanesEscapedExample | internal/tmux/parse_test.go:5-17 | the test's escaped pane row parses to the expected pane |
| TmuxParse.ParseSessionsEscapedExample | internal/tmux/parse_test.go:19-31 | the test's escaped session row parses to the expected session |
| Configuration.DefaultConfig | internal/config/defaults.go:3-10 | the built-in configuration: codex panes, the "duo" template, no providers and no templates |
| Configuration.Merge | internal/config/merge.go:3-37 | a missing base stands for the defaults; a missing overlay gives the base; otherwise each non-empty overlay default wins, and both maps are the key union with the overlay winning and every base key kept |
| Configuration.MergeIdempotent | internal/config/merge.go:3-37 | a configuration laid over itself, or an empty overlay, changes nothing; two missing ones give the defaults |
| Configuration.MergeAssociative | internal/config/merge.go:3-37 | layering three configurations gives the same result however it is grouped |
| Configuration.FirstBadPane | internal/config/validate.go:42-46 | the index of the first pane with an invalid type, or the length when there is none |
| Configuration.ValidateTemplate | internal/config/validate.go:50-60 | valid iff the template has a pane and every pane type is codex, claude or shell; an empty template and the first bad pane are reported |
| Configuration.FirstBad | internal/config/validate.go:21-25 | the first key in map order that fails the check, or the length |
| Configuration.ValidateGlobal | internal/config/validate.go:13-33 | a missing configuration is valid; otherwise valid iff the default type (when set), every provider key and every template are valid; a bad default type is reported first |
| Configuration.ValidateRepo | internal/config/validate.go:35-48 | a missing file is valid; otherwise valid iff the layout is non-empty and every pane type is valid; an empty layout and the first bad index are reported |
| Configuration.MergePreservesValidity | internal/config/merge.go:3-37 | the defaults are valid, and two valid configurations merge into a valid one |
| Up.FallbackNameOk | internal/app/up.go:378-383 | the fallback name "agentpane" matches the session-name expression |
| Up.SessionNameOk | internal/app/up.go:265 | the session-name expression: non-empty, first rune a letter or digit, every rune a letter, digit, '.', '_' or '-'; FallbackNameOk, Sanitize and BaseName produce only names it accepts |
| Up.NameRunes | internal/app/up.go:363-375 | every rune allowed in a name is kept and every other rune becomes '-' |
| Up.Mapped | internal/app/up.go:362-376 | the mapped runes, with an 'x' in front when the first rune is '.', '_' or '-' |
| Up.Sanitize | internal/app/up.go:361-385 | the result always matches `^[A-Za-z0-9][A-Za-z0-9._-]*$` and never ends in '-'; it is the mapped name trimmed of dashes exactly when that name is valid, and "agentpane" otherwise |
| Up.SanitizeKeepsTidyName | internal/app/up.go:361-385 | a valid name not ending in '-' is left alone |
| Up.SanitizeIdempotent | internal/app/up.go:361-385 | sanitising twice is sanitising once |
| Up.SanitizeSpaceExample | internal/app/up.go:374 | a space between two valid names becomes a dash |
| Up.BaseName | internal/app/up.go:275-281 | the base name always matches the expression, and a valid one is kept as is |
| Up.FirstAvailableFrom | internal/app/up.go:340-350 | an answer is the candidate for the first suffix k tried that is free, and with every candidate taken the result is an error |
| Up.FirstAvailableSuffix | internal/app/up.go:339-351 | the first free "base-i" with 2 <= i < 1000; an error when all are taken or a lookup fails |
| Up.PromptedName | internal/app/up.go:324-336 | a read error other than end of input is returned as is; otherwise the chosen name is the trimmed answer, or the suggestion for a blank answer, and the result succeeds with it exactly when it is a valid name |
| Up.ResolveSessionName | internal/app/up.go:267-321 | an explicit name is used iff valid; otherwise the base name is used when free or already serving this directory, a lookup error is returned, a collision without a terminal is an error, and a collision at a terminal gives the answer prompted against the first free suffixed name (or the error finding it); every name returned is valid |
| Up.ResolvePanes | internal/app/up.go:108-133 | an explicit template (unknown is an error naming the available ones), else a non-empty repository layout, else an existing default template, else nothing resolved |
| Up.ResolvedPanesValid | internal/config/loader.go:58-78 | with the global file valid or absent, the repository file valid or absent, and the embedded templates valid, any pane list chosen from the loaded configuration (the global file laid over the defaults and the embedded templates) is non-empty with valid pane types |
| Up.LoadedBase | internal/config/loader.go:58-60 | the configuration loading starts from has the default pane type, default template and providers, and exactly the embedded templates |
| Up.ChosenPanesValid | internal/app/up.go:108-133 | over a valid configuration and a valid repository file, a chosen pane list is non-empty with valid pane types |
| Up.ConfigurePane | internal/app/up.go:230-263 | the requested type must parse; the result falls back exactly when the actual type differs from the requested one; the title and counters are those TitleFor assigns |
| Up.Bump | internal/app/up.go:246-250 | only an untitled pane moves a counter, its own type's, by one |
| Up.TitleFor | internal/app/up.go:246-250 | a trimmed explicit title is used; otherwise the prefix followed by the type's count after the increment |
| Up.ConfigurePanes | internal/app/up.go:165-199 | on success one result per spec, threading the counters, and the first error stops |
| Up.TypesOf | internal/app/up.go:172-195 | the actual type of each configured pane, in order |
| Up.TitlesOf | internal/app/up.go:173-196 | the title of each configured pane, in order |
| Up.ConfiguredTitles | internal/app/up.go:165-199 | configured panes get the titles the counter threading assigns |
| Up.ConfigurePanesCons | internal/app/up.go:165-199 | a successful run is the first pane's result followed by the rest under the counters it left |
| Up.AutoTitlesNumbered | internal/app/up.go:246-250 | untitled panes of each actual type are numbered 1, 2, 3 in layout order |
| Up.NumbersCount | internal/app/up.go:246-250 | an untitled pane's number is its type's starting count plus the untitled panes of that type up to it |
| Up.LayoutFor | internal/app/up.go:201-204 | two panes are laid out "even-horizontal", any other count "tiled" |
| OverlayToggle.ShellQuote | internal/app/overlay.go:61-70 | the empty word becomes `''`; a word free of the listed special characters is unchanged; anything else is single-quoted with each embedded quote written as `'"'"'` |
| OverlayToggle.ReadEscaped | internal/app/overlay.go:69 | inside single quotes, the escaped body of a word followed by the closing quote reads back as the word |
| OverlayToggle.ShellQuoteRoundTrip | internal/app/overlay.go:61-70 | for every input it quotes, and every input it leaves alone that a shell takes literally, the shell reads the result back as exactly the input |
| OverlayToggle.ShellQuoteBackquote | internal/app/overlay.go:65-66 | as written, a word containing a backquote such as ``a`b`c`` is left unquoted, and the shell does not read it back literally |
| OverlayToggle.ShellQuoteFixed | internal/app/overlay.go:61-70 | the corrected quoting: a word is left alone only when the shell takes it literally (no listed special character, no backquote, no leading '~' or '#'), else it is single-quoted as before |
| OverlayToggle.ShellQuoteFixedRoundTrip | internal/app/overlay.go:61-70 | with the corrected quoting the shell reads every input back exactly |
| OverlayToggle.ShellQuoteFixedAgrees | internal/app/overlay.go:61-70 | the corrected quoting differs from the original only on words the original wrongly leaves bare |
| OverlayToggle.OverlayPane | internal/app/overlay.go:34-38 | found iff some pane of the window is titled exactly "agentpane-status", and then it is the first such pane |
| OverlayToggle.OverlayPlacement | internal/app/overlay.go:40-47 | a non-positive size becomes 30, a blank position "left", and a given position is trimmed |
| OverlayToggle.Toggle | internal/app/overlay.go:34-59 | an open overlay is closed by killing the first pane titled "agentpane-status"; otherwise a failed or blank program-path lookup is an error (carrying the lookup's error), and else an overlay is opened at the default-filled size and position running the quoted program path followed by " overlay-view" |
| OverlayToggle.OverlayPaneAppended | internal/app/overlay.go:34-38 | a window without an overlay pane has one once a pane with the overlay title is added at the end |
| OverlayToggle.ToggleTwiceCloses | internal/app/overlay.go:34-38 | toggling after an open closes the overlay that was opened |
| CliAdd.ParsePaneTypeExact | internal/cmd/add.go:48-58 | accepts exactly "codex", "claude" and "shell" as spelled, never unknown |
| CliAdd.ExactAgreesWithDomain | internal/cmd/add.go:48-58 | whatever the command accepts, the domain parser accepts with the same type |
| CliAdd.ExactIsStricter | internal/cmd/add.go:48-58 | " Shell " is rejected by the command though the domain parser accepts it |
| Snapshots.InferType | internal/app/snapshot.go:75-93 | the snapshot's own inference (command first, then title prefix) gives the same type as the domain rule for every command and title |
| Snapshots.RecordMap | internal/app/snapshot.go:41-46 | the lookup of persisted records has exactly the stored pane ids as keys, and each key maps to a stored record with that id |
| Snapshots.RecordMapLastWins | internal/app/snapshot.go:43-45 | when several records share an id, the one assigned last is the one looked up |
| Snapshots.StoredPanes | internal/app/snapshot.go:40-46 | a session missing from the store contributes no records; a stored session contributes its panes |
| Snapshots.ShowPane | internal/app/snapshot.go:47-55 | a pane keeps its id, process, index, command, path and activity; with a record it takes the record's title and type, without one it keeps its title and gets the inferred type; its status is the detector's verdict on its pid and that type |
| Snapshots.ShowPanes | internal/app/snapshot.go:47-56 | every live pane of a session is shown, one for one and in order |
| Snapshots.ShowSessions | internal/app/snapshot.go:27-57 | each live session is kept in order with its panes shown against that session's records, and a store that fails to load counts as empty |
| Snapshots.ShowSessionsShape | internal/app/snapshot.go:38-57 | the snapshot keeps each session's name, path, creation time and attachment and each pane's id, and only judges panes by the detector |
| Snapshots.ShowRecorded | internal/app/snapshot.go:49-51 | a pane with a persisted record (the last for its id) shows that record's title and type |
| Snapshots.ShowUnrecorded | internal/app/snapshot.go:52-54 | a pane with no persisted record keeps its live title and gets the inferred type |
| Snapshots.InferTypeFromTitle | internal/app/init_snapshot.go:35-45 | a trimmed, lower-cased title starting "codex" gives codex, else one starting "claude" gives claude, else shell; the answer is always a valid configured type |
| Snapshots.InferTypeFromTitleVsDomain | internal/app/init_snapshot.go:35-45 | on a title alone the layout capture agrees with the domain inference on codex and claude and turns everything else into shell |
| Snapshots.SnapshotLayout | internal/app/init_snapshot.go:20-32 | a session with no panes is an error; otherwise one spec per pane in order, with the title copied and the type read off the title |
| Snapshots.SnapshotLayoutValid | internal/app/init_snapshot.go:24-32 | a captured layout always passes the repository configuration check |
| Snapshots.PaneHits | internal/app/search.go:34-43 | the pane results of a session are exactly its panes whose lower-cased title contains the query |
| Snapshots.Search | internal/app/search.go:16-47 | a query that is empty after lower-casing and trimming finds nothing; otherwise a failed snapshot is the error, and a snapshot gives the hits for the normalised query |
| Snapshots.HitsAppend | internal/app/search.go:28-44 | results follow snapshot order: two runs of sessions give the first run's results, then the second's |
| Snapshots.HitsIff | internal/app/search.go:28-44 | a result is found iff it is a session whose lower-cased name contains the query or a pane whose lower-cased title does |
| Snapshots.SessionHitFirst | internal/app/search.go:29-33 | a session whose name matches heads its own block of results, before its panes |
| StoreEdits.WithoutPane | internal/app/close.go:11-17 | the filtered list holds exactly the records whose pane id differs from the closed one, and is never longer |
| StoreEdits.WithoutPaneAppend | internal/app/close.go:12-16 | filtering keeps the order of what stays: it distributes over concatenation |
| StoreEdits.WithoutPaneAbsent | internal/app/close.go:12-16 | a list without the closed id is left exactly as it is |
| StoreEdits.CloseInStore | internal/app/close.go:10-20 | every stored session keeps its path and creation time and loses exactly the closed pane's records; no session is added or dropped; the server id is attached |
| StoreEdits.ClosePane | internal/app/close.go:3-24 | a failed kill is returned and nothing is written; a server id that cannot be had is the error; otherwise the store written is the loaded (or new) store with the pane closed |
| StoreEdits.ClosedPaneGone | internal/app/close.go:10-18 | after a close every stored session still exists and holds a record iff it held it before and it is not the closed pane's |
| StoreEdits.CloseTwice | internal/app/close.go:10-18 | closing the same pane a second time changes nothing |
| StoreEdits.SessionOrNew | internal/app/rename.go:106-115 | a stored session is used as it is; a missing one starts with the given path, the creation time and no panes |
| StoreEdits.PromptForTitle | internal/app/rename.go:82-94 | a read error other than end of input is returned; a blank answer keeps the current title; anything else is used trimmed and is never empty |
| StoreEdits.ResolveTitle | internal/app/rename.go:44-56 | a non-blank option is used trimmed; without one, off a terminal it is an error, on a terminal the prompt decides; an empty outcome is an error, so a success is never empty |
| StoreEdits.LookupPaneTitle | internal/app/rename.go:69-80 | an error iff no listed pane has the id; otherwise the title of the first pane with it |
| StoreEdits.FirstWithId | internal/app/rename.go:118-123 | the index of the first record with the id, every record before it has another id, and it is the length when none has it |
| StoreEdits.RenamePanes | internal/app/rename.go:117-132 | the first record with the id gets the new title and the rename time, every other record is untouched; an unseen id is appended as an unknown pane created and renamed now |
| StoreEdits.UpdateStateForRename | internal/app/rename.go:96-135 | the session is created when missing and only it changes; its panes are renamed as above; version and server id are kept |
| StoreEdits.RenameSticks | internal/app/rename.go:117-132 | after a rename the first record of the pane carries the new title and the time of the rename |
| StoreEdits.FirstWithIdAt | internal/app/rename.go:118-123 | the first record with the id is found where the ids say it is |
| StoreEdits.RenameIdempotent | internal/app/rename.go:96-135 | repeating a rename with the same title at the same time changes nothing more |
| StoreEdits.CountOfTypeAppend | internal/app/add.go:97-106 | the count of recorded panes of a type over two lists is the sum of the counts |
| StoreEdits.CountOfType | internal/app/add.go:97-106 | the persisted panes of the type, at most the number of records; CountOfTypeAppend makes it additive over concatenation |
| StoreEdits.CountOfTypeZeroIff | internal/app/add.go:97-108 | no persisted pane is counted exactly when no record has the type, which is when the live-title fallback runs |
| StoreEdits.CountPrefixed | internal/app/add.go:109-118 | the live panes whose case-folded title starts with the case-folded prefix, at most the number of panes |
| StoreEdits.CountPrefixedZeroIff | internal/app/add.go:109-118 | no live pane is counted exactly when no case-folded title starts with the case-folded prefix |
| StoreEdits.StoredCount | internal/app/add.go:97-106 | zero when the store did not load or has no such session, otherwise at most the session's number of records |
| StoreEdits.AutoNumber | internal/app/add.go:95-120 | one past the stored panes of the type; when there are none, one past the live panes whose lower-cased title starts with the lower-cased prefix; when tmux cannot list them, one; never below one |
| StoreEdits.NextAutoTitle | internal/app/add.go:120 | the title is the provider's prefix followed by the decimal digits of that number |
| StoreEdits.UpdateStateForNewPane | internal/app/add.go:123-152 | the session is created when missing (an existing one keeps its path and creation time); exactly one record with the id, type, title and creation time is appended at the end; every other session and record is untouched |
| StoreEdits.AddAdvancesAutoNumber | internal/app/add.go:94-152 | once a pane of a type is recorded, the next automatic number for that type is the stored count before the add plus two, whatever the live titles say |
| StoreEdits.CloseUndoesAdd | internal/app/close.go:10-18 | closing a freshly added pane whose id was not recorded gives back the session as it was before the add |
| StoreEdits.Add | internal/app/add.go:27-80 | an error iff no provider even after falling back; the type used is the fallback's; it fell back to shell iff that type differs from the request; an explicit title is used trimmed, otherwise the next automatic title for the type used |
| TemplateApply.BeforeIrreflexive | internal/app/apply_template.go:144-146 | the id comparison the sort uses never puts an id before itself |
| TemplateApply.BeforeTransitive | internal/app/apply_template.go:144-146 | the id comparison is transitive |
| TemplateApply.BeforeTotal | internal/app/apply_template.go:144-146 | of two different ids one comes before the other |
| TemplateApply.Insert | internal/app/apply_template.go:144-146 | inserting a record adds exactly that record to the multiset of records |
| TemplateApply.InsertSorted | internal/app/apply_template.go:144-146 | inserting into an id-ordered list keeps it id-ordered |
| TemplateApply.SortById | internal/app/apply_template.go:144-146 | sorting is a permutation of the records |
| TemplateApply.SortByIdSorted | internal/app/apply_template.go:144-146 | the sorted records are in id order |
| TemplateApply.SortedUnique | internal/app/apply_template.go:144-146 | two id-ordered arrangements of the same records with distinct ids are equal, so any sort gives the same list |
| TemplateApply.InsertDistinct | internal/app/apply_template.go:144-146 | inserting a record with a new id keeps ids distinct |
| TemplateApply.SortByIdDistinct | internal/app/apply_template.go:144-146 | sorting keeps distinct ids distinct |
| TemplateApply.ReplaceSessionState | internal/app/apply_template.go:131-149 | a failure to get the server id is the result and nothing is written; otherwise the server id is attached, the session (added if missing) gets the path, creation time and exactly the given records, and every other session is untouched |
| TemplateApply.ReplacedPanesSorted | internal/app/apply_template.go:137-146 | the written records are in id order, and with distinct ids they are the one id-ordered arrangement of the given records |
| TemplateApply.BuildStatesStamps | internal/app/apply_template.go:85-112 | record `k` is held by the pane that hosts template pane `k` (the kept first pane, then each split's new pane), is stamped with the clock reading and has never been renamed |
| TemplateApply.BuildStatesConfigured | internal/app/apply_template.go:81-112 | the records carry, in order, exactly the types and titles that configuring the template's panes with shared per-type counters gives |
| TemplateApply.BuildStates | internal/app/apply_template.go:81-112 | on success one record per remaining template pane; BuildStatesStamps and BuildStatesConfigured state which pane holds each record and its type and title |
| TemplateApply.ApplyTemplate | internal/app/apply_template.go:49-129 | an unknown template, a failed listing, existing panes without force, a failed border option and a session with no panes are errors; on success the count is the template's pane count and the store written replaces the session with the built records |
| TemplateApply.ValidTemplateHasPanes | internal/app/apply_template.go:85 | a template that passes validation has a first pane, so the first-pane access never fails |
| OverlayView.Truncate | internal/tui/overlay/view.go:95-107 | nothing for a non-positive width; a line that fits is kept; a longer one is cut to exactly the width, ending in "..." when the width exceeds three |
| OverlayView.TruncateIdempotent | internal/tui/overlay/view.go:95-107 | cutting twice to the same width cuts no further |
| OverlayView.PaneIndicator | internal/tui/overlay/view.go:50-57 | the filled glyph iff the pane's agent is running, the hollow one otherwise |
| OverlayView.SessionIndicator | internal/tui/overlay/view.go:109-116 | the filled glyph iff some listed pane of the session runs an agent |
| OverlayView.VisiblePanes | internal/tui/overlay/view.go:63-70 | a pane is listed iff it belongs to the session and its trimmed title is not the overlay's own |
| OverlayView.PaneItems | internal/tui/overlay/view.go:82-90 | one pane line per listed pane, in order, carrying the session, the pane and its indicator |
| OverlayView.SessionItems | internal/tui/overlay/view.go:71-90 | a session contributes its own line, judged by its listed panes, followed by those panes' lines |
| OverlayView.BuildItemsAppend | internal/tui/overlay/view.go:59-93 | the lines of two runs of sessions are the first run's lines followed by the second's |
| OverlayView.PaneItemSound | internal/tui/overlay/view.go:59-93 | every pane line carries a pane of a session of the snapshot, under that session's name, that is not the overlay's own |
| OverlayView.PaneItemComplete | internal/tui/overlay/view.go:59-93 | every pane of the snapshot other than the overlay's own gets a line under its session with its indicator |
| OverlayView.BuildItemsSessions | internal/tui/overlay/view.go:59-93 | every session of the snapshot gets a session line, marked running iff one of its listed panes runs an agent |
| OverlayView.BuildItems | internal/tui/overlay/view.go:59-93 | each session's line followed by its pane lines, session by session; BuildItemsAppend, PaneItemSound, PaneItemComplete and BuildItemsSessions state its contents and order |
| OverlayUpdate.SyncSelection | internal/tui/overlay/update.go:90-105 | afterwards the selection describes the line under the cursor, or is cleared when the cursor is on no line; lines, cursor and error are unchanged |
| OverlayUpdate.SyncedFixed | internal/tui/overlay/update.go:90-105 | syncing an already synced selection changes nothing |
| OverlayUpdate.KeyUp | internal/tui/overlay/update.go:41-46 | one line up unless at the top, the cursor stays on a line, and the selection follows |
| OverlayUpdate.KeyDown | internal/tui/overlay/update.go:47-52 | one line down unless at the bottom, the cursor stays on a line, and the selection follows |
| OverlayUpdate.DownThenUp | internal/tui/overlay/update.go:41-52 | up after down from a line that is not the last returns to it |
| OverlayUpdate.AttachTarget | internal/tui/overlay/update.go:75-82 | a session is switched to only when the cursor is on a line with a non-empty session, and then it is that line's session |
| OverlayUpdate.AttachSelected | internal/tui/overlay/update.go:75-88 | the session switched to is the target above; a failed switch is recorded as the overlay's error and nothing else changes |
| OverlayUpdate.Mouse | internal/tui/overlay/update.go:59-73 | only a left-button release on a line moves the cursor there, syncs the selection and attaches that line's session; anything else changes nothing |
| OverlayUpdate.FindPane | internal/tui/overlay/update.go:115-121 | the first pane line for the pane id, or none when no line is for it |
| OverlayUpdate.FindSession | internal/tui/overlay/update.go:125-131 | the first session line for the session, or none when no line is for it |
| OverlayUpdate.RestoreIndex | internal/tui/overlay/update.go:107-138 | the cursor is 0 without lines; it goes to the first line of a remembered pane still listed, else to the first line of a remembered session still listed, else it stays where it was, pulled back onto the last line; from a non-negative cursor it always ends on a line |
| OverlayUpdate.RestoreSelection | internal/tui/overlay/update.go:107-138 | the selection ends synced; a remembered pane still listed stays selected; failing that a remembered session still listed is selected; failing both the cursor is kept, or pulled back to the last line when past the end |
| OverlayUpdate.RestoreKeepsPlace | internal/tui/overlay/update.go:107-138 | with repeat-free lines, restoring a synced selection on a line changes nothing |
| OverlayUpdate.RestoreIdempotent | internal/tui/overlay/update.go:107-138 | restoring twice is restoring once |
| OverlayUpdate.OnSnapshot | internal/tui/overlay/update.go:17-27 | the lines become those of the new snapshot and the error is cleared; with no session remembered the cursor goes to the first line, otherwise the selection is restored |
| OverlayUpdate.OnSnapshotKeepsPane | internal/tui/overlay/update.go:17-27 | a refresh keeps a selected pane selected as long as the new snapshot still lists it |
| OverlayUpdate.OnSnapshotKeepsSession | internal/tui/overlay/update.go:17-27 | a refresh keeps a selected session selected as long as the new snapshot still has it and no pane was selected |
| OverlayUpdate.OnError | internal/tui/overlay/update.go:28-30 | a failed refresh records the error and changes nothing else |

## Left out

- Reconcile.Reconcile: takes a store value, so the nil-store guard of internal/state/reconcile.go:41 has no counterpart (the code dereferences the store right after that guard anyway).
- Reconcile.Reconcile: takes the map visiting orders as parameters. The cross-session order of orphaned and new panes is therefore a parameter, not a fixed order.
- Clock readings: every `time.Now()` inside one operation is one `now` parameter. Two readings taken microseconds apart become one instant.
- Text.Lower: lower-cases ASCII letters only. Go's `strings.ToLower` also folds non-ASCII letters, so titles and commands are assumed to spell "codex", "claude" and "shell" in ASCII.
- File I/O: reading and atomically writing the YAML store, loading configuration files, and the embedded templates are not modelled. Their outcomes are inputs, and a save is the store value handed to it.
- tmux plumbing: subprocess calls, timeouts and exit codes are not modelled. Their results are inputs (`Result` values), and `SetOption`, `SelectLayout`, `KillPane` of extra panes and `SetPaneTitle` are represented only by their error outcomes where the code checks them.
- Providers.HasMatch: explores at most as many levels as there are processes. On an acyclic parent map that reaches every descendant. The Go walk never terminates on a cycle, which the model does not reproduce.
- AgentState.UpdatedAt: converts milliseconds to nanoseconds with explicit 64-bit wrap-around. Calendar conversion of `time.Unix` beyond the int64 range is not modelled.
- Errors: Go error values are modelled as strings. Wrapping (`errors.Is`) appears only as the branch it selects.
- The `bufio.Scanner` line-length limit when reading `ps` output is not modelled. Lines of any length are read.
- `Up` orchestration: the `InTmux`/`CurrentSession` checks, attaching to the session, creating the tmux session and its panes, and `SelectLayout` are tmux effects. Only the decisions (name, panes, titles, layout name) are modelled.
- Providers.DetectStatus: the provider registry and the process snapshot are parameters. The `ps` invocation itself is not modelled.
- TemplateApply.SortById: Go's `sort.Slice` is not stable, while the model sorts with a stable insertion sort. TemplateApply.SortedUnique shows that with distinct pane ids every correct sort gives the same list. With duplicate ids the order of the duplicates is not pinned down.
- TemplateApply.ApplyTemplate: a template with no panes makes the Go code panic when it indexes the first pane. The model returns an error there. Validated templates never reach it (TemplateApply.ValidTemplateHasPanes).
- Up.ResolvedPanesValid: assumes the embedded templates are valid. Loading never validates them (internal/config/loader.go:58-78), so a malformed embedded template would reach the pane choice unchecked.
- OverlayToggle.Toggle: the program path is an input (`Result<string>`); the `os.Executable` lookup itself is not modelled.
- OverlayToggle.ShellQuoteRoundTrip: reads the quoted word with a restricted POSIX shell reader, not a full shell. The reader takes bare characters outside the special list and other than a backquote, single-quoted runs, and double-quoted runs free of `\`, `$` and backquote. It refuses a word starting with '~' or '#'. It does not recognise a command word of the form NAME=value as an assignment; the program quotes an absolute path, which never has that form. The round trip is stated only for inputs the original quotes or the shell takes literally; the rest is the Findings row below.
- Rendering: `View`, `renderItem`, lipgloss styles and widths are not modelled. The Bubbletea plumbing (quit keys, tick and window-size messages, `scheduleRefresh`) is not modelled either.
- Rename and add tmux calls (`SplitPane`, `SetPaneTitle`, `launchProvider`) are inputs to the model, or are left out where only their error is passed through.
- `applyConfigOverrides` (loading configuration and overriding provider commands) is represented by the registry parameter it produces.
- OverlayUpdate.AttachTarget: a negative cursor makes the Go code panic when it indexes the lines. The model returns no target; the key and mouse handlers never produce such a cursor.
- OverlayView.Item: the Go item holds a pointer to a pane, which is modelled as `Option<Pane>`.
- Regular expressions: whether a configured pattern compiles and whether it matches a line are parameters. The regex engine itself is not modelled.
- `sync.Once` caching of compiled matchers is not modelled. The compiled matcher is passed in.
- Up.ResolveSessionName: the directory comparison (`filepath.Clean` on both paths, then equality) is the `samePath` parameter. Reading the working directory and the session's path are inputs.
- Random server ids: the 16 random bytes are an input. Only their hex encoding is modelled.

## Findings

| source | as written | input that shows it | evidently intended | confidence | as-written member | corrected member |
|---|---|---|---|---|---|---|
| internal/agentstate/state.go:134-141 | the time-to-live setting is multiplied by one second in 64-bit arithmetic, so a large positive setting wraps to a negative duration, and every state file then counts as stale | AGENTPANE_AGENT_STATE_TTL_SECONDS=9223372037 | a positive setting gives a positive time-to-live (saturating at the longest duration) | not executed | AgentState.TtlWrapsNegative | AgentState.Ttl |
| internal/agentstate/state.go:125-132 | the idle-threshold setting is multiplied by one second in 64-bit arithmetic, so a large positive setting wraps to a negative threshold | AGENTPANE_IDLE_SECONDS=9223372037 | a positive setting gives a positive threshold (saturating at the longest duration) | not executed | AgentState.IdleWrapsNegative | AgentState.IdleThreshold |
| internal/app/overlay.go:65-66 | the list of characters that trigger quoting leaves out the backquote (and a leading '~' or '#'), so a path containing a backquote is passed to the shell bare, which runs it as a command substitution | the program's path ``/opt/a`b`c/agentpane``, and for the lemma the word ``a`b`c`` | every character the shell treats specially triggers quoting, so the shell reads the path back unchanged | not executed | OverlayToggle.ShellQuoteBackquote | OverlayToggle.ShellQuoteFixed |
