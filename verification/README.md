# Verified model of the issue tracker's schedulers, workflow and parsers

This project models, in Dafny, the stateful core of a Go issue-tracking backend and the mention syntax it
shares with its TypeScript front end, and proves what that core promises.

| Module | Models |
|---|---|
| `Strings`, `Calendar` | Go string routines and the Gregorian calendar on a clock with a fixed whole-minute offset |
| `CronExpr`, `CronNext`, `CronMeaning`, `CronHorizon` | the cron expression parser, the jump search for the next matching minute, and what an expression means word by word |
| `Scheduler` | cron autopilots: creation, ticks, manual firing, and whole runs of one autopilot |
| `Workflow`, `WorkflowRuns`, `Interleaving` | the phase workflow of a change, sequential runs of its calls, and calls whose reads and writes interleave |
| `TasksParser`, `Splitter` | the fenced task list and the AI split that writes one artifact per phase |
| `StatusMachine`, `IssueForest`, `Timeline`, `Wakeups`, `WakeupRuns`, `IssueService` | issue statuses, the parent forest, the event timeline, parent wakeups one write and whole runs at a time, and the service over them |
| `RunQueue` | the agent run table under interleaved atomic statements |
| `Executor` | the agent's tool loop and its gate on leaving the working statuses |
| `GitHub` | repository pointers and the URLs made from them |
| `Mentions`, `MentionMatcher` | mention links as the editor writes and reads them, and the server's name matcher |

Services that update records in place are classes whose methods are proved against specification functions;
the properties of whole runs are lemmas about those functions. Ids, clocks, the language model, the JSON and YAML
decoders, case folding and the Unicode word classes are parameters, so every result holds for all of them. A clock is
assumed to increase strictly from one write to the next.

## Findings

Each of these is a property that a caller might expect, with the exact condition under which the code keeps it.

- A field step near the largest 64-bit integer overflows the marking loop and panics with an index out of range:
  exactly when the start of the range plus the step leaves the 64-bit range (`CronExpr.FieldSpecExact`,
  `CronExpr.GiantStepPanics`).
- The next run time is the zero time, which is then due at every tick, for some scheduling time exactly when the
  schedule cannot fire in a common year (`CronHorizon.NeverZeroExactly`, `Scheduler.DueTracksMatchesExactly`). For a
  parsed expression that is: the weekday field is a star, the day field is not, and no chosen month of a common year
  has a chosen day (`CronHorizon.ParsedNeverZero`), as in `0 0 29 2 *` from 2097 on (`CronHorizon.LeapDayMissed`).
- Rewriting an artifact of an earlier phase strands an active change for good: it can be archived exactly while its
  handoff is fresh (`WorkflowRuns.ArchivableExactly`, `WorkflowRuns.RegeneratingStrands`).
- An archived change stays archived in every continuation exactly when no advance in flight can still finish. Such an
  advance has passed its checks, or has left only checks that pass on what is stored now; one loaded at the proposal
  phase has no handoff to check, so it can finish even if it only loaded the change before the archive
  (`Interleaving.ArchivedIsFinalExactly`, `Interleaving.ArchiveCanBeUndone`).
- With a negative retry count a phase is never generated yet reports no error, so the split always fails: at the task
  list when every prompt renders, otherwise at the first prompt that does not (`Splitter.Split.GeneratePhase`,
  `Splitter.Split.Run`).
- Two parent moves checked before either is written, of the same issue or of two, keep the forest exactly when they do
  not cross: two issues, each going to a new parent that is the other one or below it
  (`IssueForest.ConcurrentMovesExactly`).
- Parent wakeups are on track when every parent whose children are all terminal has been woken, every wakeup names a
  child terminal by name, and no hook fired twice or lost its wakeup otherwise than with its issues. A write to the issues keeps them so exactly on a condition one can check before it: for a new issue
  `Wakeups.CreateTracksExactly`, for a status write `Wakeups.TransitionTracksExactly`, for a parent move
  `Wakeups.MoveTracksExactly`, for a delete `Wakeups.DeleteTracksExactly`, for the close intents of a merged pull
  request `Wakeups.CloseTracksExactly` and for the wakeup of an archived change `Wakeups.ArchiveTracksExactly`. Moving
  away, deleting or closing the last open child beside a child that woke nobody loses a wakeup under the default
  directory (`Wakeups.LastOpenChildLost`).
- All runs of creates and status moves stay on track exactly when the workspace's initial status cannot be stored, or is
  open and no chain of legal moves from it ends in a status that is terminal in the directory and not by name
  (`WakeupRuns.RunsTrackExactly`). The default directory is such a one; under one that puts `blocked` in the category
  done a run of two creates and three moves goes wrong (`WakeupRuns.BlockedMissesWakeup`). In every on-track state, also
  one that no run reaches, every legal move keeps on track exactly when the directory is aligned
  (`Wakeups.AlignedExactly`).
- A workspace whose initial status, the first of the todo category or else the first of all, is not a built-in one can
  create no issue, since the issues table takes only the built-in statuses (`IssueService.Service.CreateIssue`).
- The documented pointer form `ssh://git@host/owner/repo` keeps `git@` in the host, so it never names what the https
  form names (`GitHub.SshUserStaysInHost`). A clone URL parses back to its pointer exactly when the host has no slash,
  a web URL exactly when besides the repository does not end in `.git`.

## Model

| member | source | states |
|---|---|---|
| Calendar.DateOfFields | backend/internal/cronexpr/cronexpr.go:62-107 | every minute's year, month, day, hour and minute are valid and name that minute again |
| Calendar.FieldsOfDate | backend/internal/cronexpr/cronexpr.go:62-107 | every valid date is recovered from its minute, so fields and minutes are in bijection |
| Calendar.FiveYearsOn | backend/internal/cronexpr/cronexpr.go:62-66 | the horizon, five calendar years on, has the same date and time of day, and the 1st of March for the 29th of February |
| Calendar.MonthStartClosed | backend/internal/cronexpr/cronexpr.go:66-73 | the first day of each month has a closed form, so the month lengths are those of the calendar |
| Calendar.WeekdayCycle | backend/internal/cronexpr/cronexpr.go:111-124 | weekdays follow each other in a cycle of seven, each lasting a day |
| CronExpr.ParsePartExact | backend/internal/cronexpr/cronexpr.go:129-184 | a part parses to a selection if and only if the text denotes it by the grammar `*`, `a`, `a-b` with an optional `/step` |
| CronExpr.OnGridIsRemainder | backend/internal/cronexpr/cronexpr.go:185-187 | counting up from the low end in steps reaches exactly the values with no remainder |
| CronExpr.MarkValues | backend/internal/cronexpr/cronexpr.go:185-188 | the 64-bit marking loop terminates, sets exactly the selected bits, and panics exactly when the step overflows |
| CronExpr.SetRange | backend/internal/cronexpr/cronexpr.go:159-189 | one part is rejected, panics or adds exactly its marks to the bits |
| CronExpr.ParseField | backend/internal/cronexpr/cronexpr.go:127-150 | the in-place loop over the parts computes the field specification |
| CronExpr.FieldSpecExact | backend/internal/cronexpr/cronexpr.go:127-150 | a field succeeds exactly when every part is well formed, in range and does not overflow, and bit v is then set exactly when some part selects v; it panics exactly when the first bad part overflows |
| CronExpr.FieldNonEmpty | backend/internal/cronexpr/cronexpr.go:144-149 | a parsed field has a bit set, so the final error is unreachable |
| CronExpr.GiantStepPanics | backend/internal/cronexpr/cronexpr.go:185-187 | a concrete field whose step makes the index overflow |
| CronExpr.Parse | backend/internal/cronexpr/cronexpr.go:32-57 | parsing the five fields in order gives the specified schedule, error or panic, whose meaning is that of the next two rows |
| CronMeaning.ParsesExactly | backend/internal/cronexpr/cronexpr.go:32-57 | whatever space stands around the words, an expression parses if and only if it has five and each part of each is well formed, in the range of its place and free of overflow; it panics if and only if the first bad word overflows |
| CronMeaning.MatchesExactly | backend/internal/cronexpr/cronexpr.go:32-124 | a parsed expression matches a minute if and only if parts of the minute, hour and month words select its fields and the day words select its day: both of them when one is `*`, otherwise at least one |
| Strings.FieldsOfLayout | backend/internal/cronexpr/cronexpr.go:34 | the fields of words laid out with any space between and around them are those words |
| Strings.LayoutOf | backend/internal/cronexpr/cronexpr.go:34 | and every text is such a layout of its fields |
| Strings.AtoiOfSigned | backend/internal/cronexpr/cronexpr.go:159-184 | a number may carry a sign and leading zeros and must fit 64 bits |
| CronExpr.ParsedIsParsable | backend/internal/cronexpr/cronexpr.go:32-57 | every parsed schedule has full-size, non-empty fields, and a day field marked unrestricted holds every day |
| CronNext.DayRule | backend/internal/cronexpr/cronexpr.go:111-124 | with both day fields restricted either one suffices, otherwise the restricted one decides (POSIX crontab) |
| CronNext.NextMatchIsLeast | backend/internal/cronexpr/cronexpr.go:59-107 | the specified result is the least matching minute strictly after the start and before the five-year horizon, absent exactly when there is none |
| CronNext.MonthJump | backend/internal/cronexpr/cronexpr.go:66-69 | the jump to the next month moves forward and skips only minutes that do not match |
| CronNext.DayJump | backend/internal/cronexpr/cronexpr.go:70-73 | likewise for the jump to the next day |
| CronNext.HourToDayJump | backend/internal/cronexpr/cronexpr.go:74-89 | likewise when no hour of the day is left |
| CronNext.HourJump | backend/internal/cronexpr/cronexpr.go:74-89 | likewise for the jump to the next set hour |
| CronNext.MinuteToHourJump | backend/internal/cronexpr/cronexpr.go:90-104 | likewise when no minute of the hour is left |
| CronNext.MinuteJump | backend/internal/cronexpr/cronexpr.go:90-104 | likewise for the jump to the next set minute |
| CronNext.Next | backend/internal/cronexpr/cronexpr.go:62-107 | the jump search terminates and returns the least matching minute, or the zero time when there is none |
| CronHorizon.AlwaysFound | backend/internal/cronexpr/cronexpr.go:62-66 | a schedule that can fire in a common year has a match before every horizon |
| CronHorizon.MissedFrom2097 | backend/internal/cronexpr/cronexpr.go:62-66 | any other schedule has none from 2097 on, across the year 2100 |
| CronHorizon.NeverZeroExactly | backend/internal/cronexpr/cronexpr.go:62-66 | the result is never the zero time if and only if the schedule can fire in a common year |
| CronHorizon.ParsedNeverZero | backend/internal/cronexpr/cronexpr.go:32-66 | for a parsed schedule, if and only if the day field is a star, the weekday field is none, or some chosen month has a chosen day in a common year |
| CronHorizon.LeapDayMissed | backend/internal/cronexpr/cronexpr.go:62-66 | `0 0 29 2 *` parses, and from the first minute of 2097 it has no next time |
| Scheduler.AutopilotService.CreateAutopilot | backend/internal/automation/service.go:151-181 | a cron autopilot is stored with the next match after now; a malformed spec stores nothing |
| Scheduler.AutopilotService.DueCronAutopilots | backend/internal/store/postgres/autopilots.go:131-149 | exactly the enabled cron rows whose next run is not after now, each once, in order |
| Scheduler.AutopilotService.Tick | backend/internal/automation/scheduler.go:39-62 | every due row is attempted once and rescheduled whether or not its action succeeds; other rows are unchanged |
| Scheduler.AutopilotService.TriggerAutopilot | backend/internal/automation/service.go:242-271 | a disabled or failing autopilot changes nothing; otherwise the fire is stamped and the next run recomputed |
| Scheduler.NextRunInvariant | backend/internal/automation/scheduler.go:55-57 | after any run of ticks and fires the stored next run is the next match after the last scheduling time |
| Scheduler.LastFiredExactly | backend/internal/automation/scheduler.go:39-62 | after any run of any autopilot the stored last fire is the time of the last successful fire or due tick, and the trigger, expression and switch are as they were |
| Scheduler.OthersNeverScheduled | backend/internal/store/postgres/autopilots.go:131-149 | a disabled autopilot never changes; one without a cron trigger is never attempted by a tick or scheduled |
| Scheduler.AttemptedExactly | backend/internal/automation/scheduler.go:39-62 | after any run a tick attempts the autopilot exactly when a matching minute lies in (last scheduling time, now], or the schedule had no next match |
| Scheduler.AttemptedOnMatch | backend/internal/automation/scheduler.go:39-62 | for a schedule that can fire every year, exactly when a matching minute has passed |
| Scheduler.DueTracksMatchesExactly | backend/internal/store/postgres/autopilots.go:131-149 | being due tracks matching minutes for all times if and only if the schedule can fire in a common year |
| Scheduler.AttemptsBounded | backend/internal/automation/scheduler.go:39-62 | over any run in time order that always finds a next run, attempts never exceed the matching minutes elapsed, so missed ones collapse |
| Workflow.NextPhase | backend/internal/workflow/guard.go:38-49 | the walk over the order finds the following phase, none after the last |
| Workflow.ChangeService.CheckPhaseLegal | backend/internal/workflow/guard.go:96-123 | legal exactly when the phase and every earlier one has an artifact; `missing` names exactly the others |
| Workflow.ChangeService.CheckHandoffFresh | backend/internal/workflow/guard.go:129-166 | fresh exactly when the latest handoff enters the phase and no earlier phase's latest artifact is newer |
| WorkflowRuns.SubmitExactly | backend/internal/workflow/guard.go:228-251 | an active change stores every report that says pass or fail as the next version, and then the verify gate is open if and only if it says pass; any other report changes nothing |
| WorkflowRuns.WriteExactly | backend/internal/workflow/manual.go:24-54 | an active change stores every non-blank text for any of the four phases as the next version; any other write changes nothing |
| WorkflowRuns.AdvanceExactly | backend/internal/workflow/guard.go:191-223 | stated on the logs: an advance hands the phase off to the next one if and only if the change is active, not at the last phase, each phase up to its own is written, and the last handoff entered it no earlier than the last artifact of each phase before |
| WorkflowRuns.ArchiveExactly | backend/internal/workflow/guard.go:258-289 | an archive changes the status alone, if and only if the same gates are open at the last phase and the last verify report says pass |
| WorkflowRuns.VersionFollowsLatest | backend/internal/store/postgres/workflow.go:140-147 | the next version of a kind is one more than the version of its last artifact |
| WorkflowRuns.LastReportDecides | backend/internal/workflow/guard.go:170-186 | over every run the verify gate is open if and only if the last report submitted as pass or fail while the change was active says pass; every other call does not matter |
| Workflow.ChangeService.GuardStatus | backend/internal/workflow/guard.go:52-92 | the reported verdicts are exactly whether advance and archive would be accepted |
| Workflow.ChangeService.AdvancePhase | backend/internal/workflow/guard.go:191-223 | a handoff and a phase write when every gate holds, otherwise nothing |
| Workflow.ChangeService.SubmitVerifyReport | backend/internal/workflow/guard.go:228-251 | a new report version on an active change, otherwise nothing |
| Workflow.ChangeService.ArchiveChange | backend/internal/workflow/guard.go:258-289 | archived when every gate and the verify report hold, otherwise nothing |
| Workflow.ChangeService.WriteArtifact | backend/internal/workflow/manual.go:24-54 | a new version of a known kind on an active change, otherwise nothing |
| Workflow.ChangeStore.StartChange | backend/internal/workflow/manual.go:79-109 | an issue gets one change: the first start stores a fresh one at the proposal phase, every later one is a conflict that leaves it as it is |
| Workflow.ChangeStore.EnsureChange | backend/internal/agent/flow.go:37-53 | the issue's change unchanged if there is one, otherwise a fresh one |
| WorkflowRuns.StepKeeps | backend/internal/workflow/guard.go:191-289 | every call keeps: phase k has exactly the k handoffs order[0] to order[k] in time order, versions are numbered, every handoff left a written phase, archived implies every gate |
| WorkflowRuns.ReachableInv | backend/internal/workflow/manual.go:79-109 | so every state reached from a started change satisfies it |
| WorkflowRuns.Absorbing | backend/internal/workflow/guard.go:191-289 | archived and failed are absorbing: no later sequence of calls changes anything |
| WorkflowRuns.AppendOnly | backend/internal/workflow/manual.go:24-54 | artifacts and handoffs only ever grow at the end |
| WorkflowRuns.StaleForever | backend/internal/workflow/guard.go:129-166 | once an earlier artifact is newer than the latest handoff, no later sequence of calls makes advance or archive succeed |
| WorkflowRuns.FreshReachesArchive | backend/internal/workflow/guard.go:258-289 | from a fresh active state some sequence of calls reaches archived |
| WorkflowRuns.ArchivableExactly | backend/internal/workflow/guard.go:129-166 | an active change can still be archived if and only if its handoff is fresh now |
| WorkflowRuns.RegeneratingStrands | backend/internal/workflow/manual.go:24-54 | writing an artifact loses that possibility exactly when it is of a phase before the current one |
| Interleaving.NoPhaseSkipped | backend/internal/workflow/guard.go:191-223 | however reads, handoff writes and phase writes of concurrent calls interleave with artifact writes, every phase before the stored one has an artifact |
| Interleaving.AloneIsStep | backend/internal/workflow/guard.go:191-289 | left alone, the reads and writes of an advance or an archive, one by one, do what the call does as one atomic step |
| Interleaving.ArchivedIsFinalExactly | backend/internal/workflow/guard.go:191-223 | an archived change stays archived in every continuation if and only if no advance in flight can still finish: past its checks, or with only checks left that pass on what is stored now |
| Interleaving.FinishUndoesArchive | backend/internal/workflow/guard.go:206-221 | left undisturbed, an advance that can still finish makes the archived change active |
| Interleaving.ArchiveCanBeUndone | backend/internal/store/postgres/workflow.go:60-65 | from any state fit to advance from design, an interleaving archives the change and then makes it active again |
| TasksParser.ExtractJSONFence | backend/internal/workflow/parser.go:64-84 | the nested line loops compute the body of the first json block |
| TasksParser.JSONFenceExact | backend/internal/workflow/parser.go:64-84 | a block is found exactly when some lines open and close it, and its text is exactly the lines between |
| TasksParser.FenceExactly | backend/internal/workflow/parser.go:64-84 | a line is a fence if and only if it is space, three backticks and anything |
| TasksParser.OpensExactly | backend/internal/workflow/parser.go:64-84 | a fence line opens the block if and only if what follows the backticks, without the space around it, is the language |
| TasksParser.JsonExactly | backend/internal/workflow/parser.go:64-84 | the language is `json` whatever the case of its letters |
| TasksParser.ExtractsBody | backend/internal/workflow/parser.go:64-84 | intro, json fence, body, closing fence and rest give back exactly the body when no intro line opens a fence and no body line is one |
| TasksParser.ParseTasks | backend/internal/workflow/parser.go:30-61 | the validation loop computes the task list, or nothing if it is empty or any task is invalid |
| TasksParser.TasksExactly | backend/internal/workflow/parser.go:30-61 | a text gives a task list if and only if its block decodes to a non-empty list without blank titles or negative stages, and the i-th task is the i-th entry with its title trimmed and stage 1 where none is given |
| TasksParser.TasksAreValid | backend/internal/workflow/parser.go:45-59 | accepted tasks are not empty, have non-blank titles and stages of at least 1 |
| TasksParser.ParsesRenderedTasks | backend/internal/workflow/parser.go:30-61 | a document whose block decodes to valid tasks parses to those tasks in order |
| TasksParser.TasksNotBlank | backend/internal/workflow/parser.go:30-84 | a text that parses is not blank |
| Splitter.FirstGoodExactly | backend/internal/workflow/splitter.go:171-184 | the reply a phase keeps is the first good one within its attempts |
| Splitter.GoodReplyExactly | backend/internal/workflow/splitter.go:187-200 | a good reply is a text that parses to a task list for the tasks phase and one that is not blank for the others |
| Splitter.Split.GeneratePhase | backend/internal/workflow/splitter.go:166-185 | the retry loop returns the first acceptable reply, fails after maxRetries + 1 attempts, and makes none for a negative count |
| Splitter.Split.CreateSubIssue | backend/internal/workflow/splitter.go:216-226 | one child of the split issue in its project, with the title, description and stage of one parsed item, through the issue service; or nothing when the store fails or the initial status cannot be stored |
| Splitter.Split.BindTaskSubIssues | backend/internal/workflow/splitter.go:209-238 | either the whole mapping set is replaced with one entry per task in order, each to its own new child of the split issue made from that task, or the old set stays; every other issue stays as it was |
| Splitter.WriteThenAdvance | backend/internal/workflow/splitter.go:120-161 | the split's direct writes of one phase end in the state the guarded write and advance calls would give |
| Splitter.Split.Run | backend/internal/workflow/splitter.go:81-162 | succeeds exactly when every phase gets an acceptable reply and every sub-issue is created, then the change is active at tasks, legal and fresh with one artifact per phase and its tasks bound to new children of the issue; otherwise it is failed with the mappings untouched; an unknown issue or one with a change changes nothing; at most 4 (maxRetries + 1) completions |
| StatusMachine.DefaultDirectoryAgrees | backend/internal/issue/statemachine.go:58-120 | under the default directory the directory-driven machine is the built-in one for every pair of names |
| StatusMachine.LegalExactly | backend/internal/issue/statemachine.go:40-52 | the moves in words: one step on from backlog to done, one step back from in progress and in review, to blocked and back, and to cancelled from anything but done |
| StatusMachine.TerminalExactly | backend/internal/issue/statemachine.go:34-52 | a category is terminal if and only if no move leaves it |
| StatusMachine.TransitionInExactly | backend/internal/issue/statemachine.go:104-121 | a move is accepted if and only if the first entries of both names put them in categories with a legal move; otherwise the first name the directory lacks is reported, or the move is illegal |
| StatusMachine.TerminalIsFinal | backend/internal/issue/statemachine.go:40-52 | whatever the directory, no move leaves a terminal category |
| IssueForest.ForestIsAcyclic | backend/internal/issue/service.go:510-544 | in a forest no issue is its own ancestor |
| IssueForest.MoveExactly | backend/internal/issue/service.go:513-544 | within a project a move keeps the forest if and only if the new parent is neither the issue nor below it |
| IssueForest.WalkEndsExactly | backend/internal/issue/service.go:530-542 | the ancestor walk ends if and only if the chain reaches a root or the moved issue |
| IssueForest.ConcurrentMovesExactly | backend/internal/issue/service.go:415-424 | two moves, of one issue or two, to a parent or to the root, each allowed in the state both were checked against, leave a forest if and only if not each new parent is the other moved issue or below it |
| IssueForest.DeleteKeepsForest | backend/internal/store/postgres/migrations/0003_issue_domain.sql:4 | removing a set closed under children keeps the forest |
| IssueForest.CreateKeepsForest | backend/internal/issue/service.go:298-309 | creating under an existing parent of the project keeps the forest |
| Timeline.ReplayIsChain | backend/internal/issue/service.go:94-111 | a replay that succeeds is a chain: each event's old value is the previous new one, the first starts at the start value, the last gives the result |
| Timeline.FieldEventsReplay | backend/internal/issue/service.go:438-475 | an update's events take every listed field from its old display to its new one, also when labels change without their display |
| Timeline.WriteKeepsFaithful | backend/internal/issue/service.go:421-427 | a write whose events replay its change keeps every issue's timeline equal to its state |
| Timeline.UpdateKeepsFaithful | backend/internal/issue/service.go:421-427 | an update with one event per changed field is such a write |
| Timeline.DeleteKeepsFaithful | backend/internal/store/postgres/migrations/0013_issue_events.sql:3 | deleting issues with their events keeps the others' timelines |
| IssueService.Service.constructor | backend/internal/issue/service.go:48-50 | an empty store satisfies every invariant |
| IssueService.Service.NextIssuePosition | backend/internal/store/postgres/issues.go:230-242 | one past the largest position among the peers, 0 without peers |
| IssueService.Service.CreateIssue | backend/internal/issue/service.go:277-346 | the refusals in the service's order, otherwise exactly the new issue and its created event; the forest and the timeline are kept, and the wakeups exactly when the condition above holds |
| IssueService.Service.ValidateNewParent | backend/internal/issue/service.go:513-544 | the ancestor walk terminates because of the forest and refuses exactly the issue itself, missing parents, other projects and descendants |
| IssueService.Service.RecordFieldEvents | backend/internal/issue/service.go:438-475 | one event per field that was given and differs, in a fixed order |
| IssueService.Service.UpdateIssue | backend/internal/issue/service.go:363-434 | the refusals in the service's order, otherwise each given field takes the given value and nothing else changes, with one event in order for each field that changes, from the value shown to the given one; the forest and the timeline are kept, and the wakeups exactly when the move's condition holds |
| IssueService.UpdateIsTold | backend/internal/issue/service.go:438-475 | the events of an update are exactly one for each field given a new value, in order, each carrying the given value |
| IssueService.Service.WakeParentIfChildrenTerminal | backend/internal/issue/service.go:642-672 | a wakeup and a hook exactly when the child is in a built-in terminal status and every sibling is terminal in the directory |
| IssueService.Service.TransitionStatus | backend/internal/issue/service.go:584-616 | a legal move writes the status, its event and the wakeup if due; an illegal one changes nothing; every hook ever fired did so with all the parent's children terminal; the wakeups are kept exactly when the condition holds |
| IssueService.Service.DeleteIssue | backend/internal/issue/service.go:546-557 | exactly the issue's subtree goes, with its events and the wakeups that name it; the other wakeups are kept exactly when the condition holds |
| IssueService.Service.ApplyCloseIntents | backend/internal/pr/service.go:223-246 | exactly the named open issues become done, with one event each at the first mention |
| IssueService.CloseEventsExactly | backend/internal/pr/service.go:223-246 | each closed issue has exactly one event, from the status it had to done |
| Wakeups.CreateTracksExactly | backend/internal/issue/service.go:200-212 | after a create every wakeup names a terminal child, every parent with only terminal children has been woken, and the hook fired at most once for each wakeup and for none that is missing while its issues are there, if and only if the new issue is a root, is open or has a sibling |
| Wakeups.TransitionTracksExactly | backend/internal/issue/service.go:642-672 | a status write keeps this, in every directory and from every status, if and only if it does not complete an unwoken parent under a name that is not terminal, and does not reopen or repeat a recorded wakeup |
| Wakeups.DefaultWakesExactly | backend/internal/issue/service.go:642-672 | under the default directory a legal move of a child wakes its parent if and only if it goes to done or cancelled and every sibling is done or cancelled |
| Wakeups.AlignedExactly | backend/internal/issue/service.go:584-616 | every legal move keeps it in every state if and only if the directory is aligned with the built-in terminal names |
| WakeupRuns.RunShape | backend/internal/issue/service.go:584-672 | in every run of creates and moves from an empty store, under any directory, the hooks fired are exactly the wakeups, and a child that woke its parent is terminal in the directory, so it never moves again |
| WakeupRuns.RunsTrackExactly | backend/internal/issue/service.go:584-672 | all such runs stay on track if and only if the initial status cannot be stored, or it is open and no chain of legal moves from it ends in a status terminal in the directory and not by name |
| WakeupRuns.AlignedRunsTrack | backend/internal/issue/service.go:584-616 | an aligned directory with an open initial status satisfies that condition |
| WakeupRuns.EveryHookWasDue | backend/internal/issue/service.go:654-671 | in every such run, under any directory, each hook fired in a state where its child was terminal by name and every child of the parent terminal |
| WakeupRuns.DefaultRunsStayOnTrack | backend/internal/domain/models.go:362-380 | every such run under the default directory stays on track |
| Wakeups.DefaultDirectoryIsAligned | backend/internal/domain/models.go:362-380 | the default directory is aligned |
| Wakeups.FewerStatusesStayAligned | backend/internal/issue/service.go:739-764 | an aligned directory stays aligned when statuses are deleted |
| Wakeups.MoveTracksExactly | backend/internal/issue/service.go:415-424 | a parent move keeps it if and only if no wakeup names the issue, the old parent was woken, keeps an open child or keeps none, and the new one was woken, has an open child or gets one |
| Wakeups.DeleteTracksExactly | backend/internal/store/postgres/migrations/0003_issue_domain.sql:22-28 | a delete keeps it if and only if the issue is a root, or its parent was woken by another child, keeps an open child or keeps none |
| Wakeups.CloseTracksExactly | backend/internal/pr/service.go:223-246 | close intents keep it if and only if every unwoken parent with a child has one that stays open: open and not named, or named where done is not terminal |
| Wakeups.ArchiveTracksExactly | backend/internal/workflow/guard.go:293-320 | archiving a child's change, which records its wakeup and fires the hook whatever its status, keeps it if and only if the child is terminal by name and that wakeup was not recorded before |
| Wakeups.LastOpenChildLost | backend/internal/pr/service.go:236-239 | under the default directory a state that moving, deleting or closing the last open child leaves without a due wakeup |
| WakeupRuns.BlockedMissesWakeup | backend/internal/issue/service.go:643-645 | a directory a workspace can make and a run of two creates and three legal moves under it that completes a parent without waking it |
| RunQueue.ClaimedAtMostOnce | backend/internal/store/postgres/agent.go:163-186 | in every interleaving no two claims return the same run |
| RunQueue.RuntimeTakesExactly | backend/internal/store/postgres/agent.go:175-186 | in every interleaving the claim of an agent's runtime takes a run if and only if it is the oldest queued run of that very agent |
| RunQueue.ServerTakesExactly | backend/internal/store/postgres/agent.go:163-173 | a server worker's claim takes it if and only if it is the oldest queued run of an agent in the table that is not local |
| RunQueue.ClaimedIsRunning | backend/internal/store/postgres/agent.go:163-186 | and the run taken is running from then on, for the agent it had, while every other row stays |
| RunQueue.FinishedAtMostOnce | backend/internal/store/postgres/agent.go:188-194 | a run is finished at most once and keeps the status that finish wrote |
| RunQueue.LifeOfARun | backend/internal/store/postgres/agent.go:117-194 | from an empty table a run was created for the agent it has; one that left the queue was then claimed, a finished one claimed and finished, in that order |
| RunQueue.FirstInFirstOut | backend/internal/store/postgres/agent.go:163-186 | when a claim takes a run, every older run open to that claimer is no longer queued |
| RunQueue.BoundedWaiting | backend/internal/store/postgres/agent.go:163-173 | server claims so far plus the older claimable runs left never exceed the older claimable runs at the start, while the run waits |
| RunQueue.ClaimedByTurn | backend/internal/store/postgres/agent.go:163-173 | so a run with k older claimable runs is claimed by the (k+1)-th server claim |
| RunQueue.LocalRunsStayLocal | backend/internal/store/postgres/agent.go:163-186 | in every interleaving a queued run of a local agent is untouched until that agent's own runtime claims |
| RunQueue.Conservation | backend/internal/store/postgres/agent.go:117-194 | runs, runs that left the queue and finished runs number exactly the creates, successful claims and successful finishes |
| RunQueue.RunStore.ClaimRun | backend/internal/store/postgres/agent.go:163-186 | the oldest queued row open to the claimer becomes running, or nothing changes |
| RunQueue.RunStore.RunOne | backend/internal/agent/queue.go:116-147 | claims the oldest server run, and its outcome is recorded unless another worker finished that very run meanwhile |
| Executor.EveryRun | backend/internal/agent/executor.go:134-173 | on every run at most `last` completions, statuses written along legal moves, none in review or done unless the change was not active at the start or an archive succeeded before, and every such archive had passed the guard's gates |
| Executor.EveryRunIsSound | backend/internal/agent/executor.go:305-311 | with other callers that keep the workflow's invariant, every archive of the run happened in a state with the full chain of handoffs |
| Executor.DoneWasEarned | backend/internal/agent/executor.go:329-353 | a run that starts on an active change and writes done archived it first, then wrote in review, then done |
| Executor.EndsExactly | backend/internal/agent/executor.go:134-173 | the loop ends at the first final reply or client error, as a failure, an empty final or an answer, and runs out of turns only without one |
| Executor.CommentsExactly | backend/internal/agent/executor.go:134-173 | the comments of a run are exactly those its replies post, in order, blank ones left out |
| Executor.LoopIsARun | backend/internal/agent/executor.go:264-357 | while nobody else writes the change, a run of the agent is a run of the workflow: its tools are the guarded calls |
| Executor.ChangeCopyIsStored | backend/internal/agent/executor.go:264-357 | meanwhile the run's copy of the change is the stored one, so the gate looks at what is stored |
| Executor.GateOpens | backend/internal/agent/executor.go:329-353 | when the change can be archived, three turns archive it and take the issue from in progress through review to done |
| Executor.StoredFollowsCopy | backend/internal/agent/executor.go:329-353 | while nobody else writes the status, the stored status is the run's copy, so its status writes are legal moves of the stored status |
| Executor.LoopKeeps | backend/internal/agent/executor.go:134-173 | each turn costs one completion and keeps the safety invariant |
| Executor.Runner.RunTool | backend/internal/agent/executor.go:264-357 | each tool changes the stored change, the status, the comments and the run's copy exactly as specified, through the workflow service's own methods |
| Executor.Runner.Execute | backend/internal/agent/executor.go:102-174 | anchored to the issue's change, started when there is none, the turn loop computes the specified run for all replies and all interference with the change and the status |
| GitHub.CloneURLRoundTrip | backend/internal/platform/github.go:27-33 | the clone URL of a pointer parses back to it if and only if the host has no slash |
| GitHub.WebURLRoundTrip | backend/internal/platform/github.go:36-42 | the web URL does so if and only if besides the repo does not end in `.git` |
| GitHub.FormsAgree | backend/internal/platform/github.go:44-85 | the https, ssh and scp forms, and the bare form for github.com, parse alike with or without one `.git` or trailing slash |
| GitHub.ParsesExactly | backend/internal/platform/github.go:44-85 | a pointer parses to a host, owner and repo if and only if, trimmed, it is one of the bare, https, ssh and scp forms of two segments; every other scheme and shape is an error |
| GitHub.SpaceIgnored | backend/internal/platform/github.go:44-50 | space around a pointer makes no difference |
| GitHub.SegmentsJoin | backend/internal/platform/github.go:9 | segments are closed under joining with dots, dashes and underscores |
| GitHub.SshUserStaysInHost | backend/internal/platform/github.go:66-76 | a user name in an ssh URL stays in the host |
| GitHub.SlashInHost | backend/internal/platform/github.go:71-79 | a URL whose host part holds a slash never parses |
| Mentions.LinkSound | frontend/src/lib/mentions.ts:15 | a link match is exactly its printed form and carries a name without `]` and an id without `)` or space |
| Mentions.LinkComplete | frontend/src/lib/mentions.ts:15-23 | every such mention, printed, matches, whatever follows it |
| Mentions.PushText | frontend/src/lib/mentions.ts:29-43 | the cursor loop appends the leftmost plain mentions and the text between them |
| Mentions.ParseMentionSegments | frontend/src/lib/mentions.ts:25-59 | the match loop computes the specified segments |
| Mentions.Lossless | frontend/src/lib/mentions.ts:25-59 | printing the segments back gives the content, character for character |
| Mentions.SegmentsClean | frontend/src/lib/mentions.ts:25-59 | no mention is missed or cut short: texts are not empty, hold no mention of either kind and stand apart, and a plain mention has all the word characters after its `@` |
| Mentions.ReadsBackExactly | frontend/src/lib/mentions.ts:21-59 | a formatted mention in a comment is read back between the plain segments before it and the segments after it if and only if no link starts before it |
| Mentions.RoundTripExactly | frontend/src/lib/mentions.ts:21-59 | reading a formatted mention gives exactly that mention if and only if its name is non-empty without `]` and its id non-empty without `)` or space |
| MentionMatcher.MentionsName | backend/internal/notification/mentions.go:8-36 | terminates, and is true if and only if the name is not blank and some `@` is followed by a folded copy of it and then the end or a byte that is no name byte |
| MentionMatcher.LongerNameIsAnother | backend/internal/notification/mentions.go:22-27 | a mention of a longer name is no mention of the name it starts with |
| MentionMatcher.NameCharExactly | backend/internal/notification/mentions.go:32-36 | in characters, a name goes on with a letter, a digit, an underscore, a dash or anything beyond ASCII |
| MentionMatcher.LinksAreMentions | backend/internal/notification/mentions.go:8-36 | the link the editor writes for a non-blank name is matched by the server, whatever stands around it |

## Left out

- HTTP handlers, authentication, roles and membership checks, squads, subscribers, notifications and run triggers of the issue service.
- Store failures: every store call succeeds, except the faults given as parameters (task creation, language model, prompt rendering).
- SQL text: the stores follow their interface contracts; `collectArtifacts` scans one target fewer than it selects columns (backend/internal/store/postgres/workflow.go:202-213) and is taken by its contract.
- JSON, YAML and regular-expression engines: decoders are parameters, the few expressions are written as predicates; the JavaScript word class of plain mentions and Go's case folding are parameters.
- Offsets that change (daylight saving) and offsets that are not whole minutes.
- The random tie-break of handoffs written at the same instant: the clock increases strictly.
- Updating an autopilot.
- Scheduler.AutopilotService.CreateAutopilot: does not model the checks of the name, the action, the agent and the webhook, because only the cron expression bears on when an autopilot fires.
- Workflow.ChangeService.ArchiveChange: says nothing of the wakeup of the issue's parent that follows the archive (backend/internal/workflow/guard.go:293-320), whose failure the caller sees although the change is archived; what that wakeup does to the wakeups on record is `Wakeups.ArchiveTracksExactly`.
- Workflow.ChangeService.WriteArtifact: says nothing of the binding of sub-issues that follows a tasks artifact, which is the split's binding, because the artifact is stored whether or not that succeeds.
- IssueService.Service.ApplyCloseIntents: starts from the issues the keys resolve to; the expression that finds the keys in a title or body is not modelled.
- Workspace status directories that change while issues exist: the directory of a service is fixed.
- Direct status writes by the local runtime API and by the executor bypass the timeline and the wakeups and are not part of the issue service here.
- Executor.Runner.Execute: requires a configured flow, as the workflow tools do.
- RunQueue.RunStore.ClaimRun: one atomic statement; rows that are locked by a claim in progress, which the statement skips, do not appear, and agents do not change runtime.
- Autopilot actions, webhooks, file import and archive, git and worktree calls, pull request state, skills, and the React pages.
