# Multipass WebUI: a verified model

A Dafny model of the parts of Multipass WebUI that hold state, run concurrently or do arithmetic,
with proofs of what they promise. `dafny verify dfyconfig.toml` checks all of it.

- `ByteStreams`, `TerminalSession`, `TerminalStream`: one terminal session. Output is appended to a
  64 KiB scrollback and then broadcast; a browser tab subscribes, takes a snapshot and follows the
  live output; keystrokes and resize frames share one byte channel.
- `TerminalRegistry`, `KillRace`: the table of sessions over whole runs, and kills of one session at
  the grain of single steps, with the lock and its owner.
- `Calendar`, `Scheduler`, `SchedulerJob`, `SchedulerOverlap`: the scheduler tick, its guard in the
  Gregorian calendar, exactly-once firing over whole runs, and ticks that overlap.
- `Text`, `Sizes`, `BulkVms`: size strings, their two parsers and their printer; bulk start and stop.
- `LoginSessions`, `Paths`, `FileStore`, `Playbooks`, `Templates`, `GoImport`, `Groups`: stores that
  agree with a simple map, the import from the Go version, and group order.

Code that changes state is a class whose methods are proved equal to a function of the old state;
the lemmas about whole runs are about those functions. Interleavings are lists of events: an event
that is not enabled changes nothing, so every list is a run.

## Where the code and its promises part

Each of these is kept as the code has it; the lemmas named give an input and the exact condition.

- A snapshot can lose chunks broadcast between its read and its transmit, and show one chunk twice
  (`ReconnectCanLose`, `ReconnectCanRepeat`, `FaithfulIff`, `NothingLostWhenAtomic`).
- `app/services/terminals/session.rb:160` hands an array to `String#replace`, which Ruby refuses: the
  reader dies on the first chunk that takes the stream past 64 KiB (`OneByteTooMany`,
  `ReaderDiesIff`). The append is modelled twice, as meant and as written; the two agree exactly up
  to the cap (`TrimsAsMeantIff`). The results about reconnecting hold of both: the runs of the code as
  written are runs of that model (`OutputEndsAtCapAsWritten`).
- A keystroke message of five bytes or more that starts with 0x01 is taken for a resize
  (`PastedCtrlAIsMisread`, `KeystrokesArriveIff`).
- Killing by id takes a lock that is not re-entrant a second time and raises whenever the id is
  registered; its effects are complete by then (`KillByIdRaisesIffFound`,
  `EndedKillIsComplete`, `Registry.KillById`).
- Two kills that overlap can both send TERM, and a TERM can follow the reader's exit
  (`TwoTermsCanBeSent`, `TermAfterReaderExit`); exactly when is said by `TermIff`, `TwoTermsIff` and
  `TermAfterExitIff`, and with an atomic check by `AtMostOneTermWhenAtomic`.
- The guard against firing twice compares minute, hour and day of the month only, so a schedule that
  last fired on the same day of an earlier month is skipped (`FirstOfFebruaryIsMissed`,
  `ExactlyOnceIff`).
- Overlapping ticks fire twice in a minute (`OverlapFiresTwice`, `DecideFiresIff`,
  `FiringsAreEarlyJobs`).
  A job held up for more than 86340 seconds can make even disjoint ticks do so, and a shorter delay
  cannot (`HeldUpWriteFiresTwice`, `FiringsBoundedByWorkers`).
- The disk parser has no K (`KilobytesReadAsBytes`, `ParsersAgreeInKIff`).
- A template whose first line is blank may be saved but is never found; the comment at
  `app/services/multipass/cloudinit.rb:55-57` speaks of the first non-blank line, the code reads the
  first one (`LeadingBlankLineIsNotFound`, `SavedIsFoundIff`).
- An event without an id is imported anew every time (`AnonymousEventIsAddedAgain`,
  `ImportEventsTwiceIff`).
- `app/services/terminals/session.rb:26-27` registers a session before it starts, so a failing start
  leaves an entry; `Registry.Open` shows it, and a kill or the reaper removes it.

## Model

| member | source | states |
|---|---|---|
| TerminalSession.ScrollbackIsTailOfStream | app/services/terminals/session.rb:148-163 | with the append as it is meant: after any appends the scrollback is the last 64 KiB of the whole stream |
| TerminalSession.ChunkingIsInvisible | app/services/terminals/session.rb:148-163 | as meant: two ways of cutting one stream into reads leave the same scrollback |
| TerminalSession.ReaderDiesIff | app/services/terminals/session.rb:153-163 | as written: the reader dies if and only if the stream is longer than 64 KiB; until then buffer and broadcasts are the whole stream, from then on they stay as the first chunk past the cap left them, buffered and not broadcast |
| TerminalSession.TrimsAsMeantIff | app/services/terminals/session.rb:156-161 | the append as written does what is meant if and only if the stream is at most 64 KiB |
| TerminalSession.OneByteTooMany | app/services/terminals/session.rb:160 | the first failing inputs: any reads of 65536 bytes in all, and one byte more |
| TerminalSession.Session.AppendScrollback | app/services/terminals/session.rb:148-163 | as meant: an append keeps the last 64 KiB of the old buffer and the chunk |
| TerminalSession.Session.AppendScrollbackAsWritten | app/services/terminals/session.rb:153-163 | as written: it keeps everything, and raises exactly when that is more than 64 KiB |
| TerminalSession.Session.RunReader | app/services/terminals/session.rb:75-108 | with the append as meant: the loop stops at the first end, and by then scrollback and broadcasts hold exactly the chunks before it, plus the notice of that end in its own words; the session is closed however it stops |
| TerminalSession.ChunksOfReads | app/services/terminals/session.rb:79-96 | the chunks of some reads are those reads, and a wait adds none |
| ByteStreams.AsciiCodes | app/services/terminals/session.rb:91-102 | a notice is sent as the codes of its characters |
| TerminalSession.Session.RunReaderAsWritten | app/services/terminals/session.rb:75-108 | as written: the loop also stops, without a notice, at the append that raises |
| TerminalSession.Session.Write | app/services/terminals/session.rb:112-132 | a write acts as the demultiplexer while the session is open and its PTY works, and is dropped otherwise |
| TerminalSession.InputIsPlainMessages | app/services/terminals/session.rb:112-129 | the PTY receives in order the concatenation of exactly the messages that are not resize frames |
| TerminalSession.WinsizeIsLastFrame | app/services/terminals/session.rb:115-126 | the window size is that of the last message recognised as a resize |
| TerminalSession.WinsizeKeptWithoutFrames | app/services/terminals/session.rb:112-129 | without such a message it stays as it was |
| TerminalSession.ResizeRoundTrip | app/javascript/controllers/terminal_controller.js:121-131 | decoding an encoded resize gives columns and rows modulo 2^16, for integers of either sign |
| TerminalSession.BuildResize | app/javascript/controllers/terminal_controller.js:121-131 | the buffer filled in place is that frame |
| TerminalSession.KeystrokesArriveIff | app/javascript/controllers/terminal_controller.js:113-131 | everything typed reaches the PTY, through any mix of keystrokes and resizes, if and only if no keystroke message of 5 bytes or more starts with 0x01 |
| TerminalSession.PastedCtrlAIsMisread | app/services/terminals/session.rb:117-126 | a paste that is lost and resizes the terminal |
| TerminalStream.InvHolds | app/services/terminals/session.rb:92-96 | in every interleaving of reader and tabs the logs, the scrollback and every tab are coherent |
| TerminalStream.ReaderDoesAll | app/services/terminals/session.rb:78-108 | in every run the reader follows its own events alone; what is appended is exactly the chunks of its reads in order, and what is broadcast exactly those it came to send and the notice of its exit |
| TerminalStream.EveryReadIsBroadcast | app/services/terminals/session.rb:78-96 | whatever the tabs do in between, whole rounds of the reader append and broadcast every chunk once and in order |
| TerminalStream.BroadcastReachesTabs | app/services/terminals/session.rb:168-171 | each broadcast goes once to every tab whose stream is open, and to no other |
| TerminalStream.TabsTakeTheirSteps | app/channels/terminal_channel.rb:30-34 | in every run a tab can subscribe, read what the scrollback holds then, transmit it, handle what arrives and disconnect, each in its turn and without touching the other tabs |
| TerminalStream.ScrollbackIsTail | app/services/terminals/session.rb:153-163 | between reads the scrollback is the last 65536 bytes of all that was read |
| TerminalStream.Reconnect | app/channels/terminal_channel.rb:30-34 | once the snapshot has arrived, the screen is the snapshot as read followed by every broadcast since the transmit, the wire holds the rest, and the snapshot ends what had been appended |
| TerminalStream.LossAndRepetition | app/channels/terminal_channel.rb:30-34 | a lost chunk was broadcast between read and transmit or is the exit notice; at most one chunk, the one the reader held, appears twice |
| TerminalStream.LogsShareTheirPrefix | app/services/terminals/session.rb:95-96 | the broadcasts are the appended chunks in order, however the reader is stopped |
| TerminalStream.FaithfulIff | app/javascript/controllers/terminal_controller.js:104-109 | for streams of any length: a caught-up screen equals everything broadcast, but for the bytes that the snapshot had trimmed off, if and only if the snapshot covered as many chunks as had been broadcast at the transmit |
| TerminalStream.CaughtUpScreenEndsStream | app/javascript/controllers/terminal_controller.js:104-109 | so such a screen has at least the last 64 KiB of the stream |
| TerminalStream.OutputEndsAtCapAsWritten | app/services/terminals/session.rb:95-106 | in the runs of the code as written nothing is cut, the chunk that passes the cap is not broadcast, and nothing follows it |
| TerminalStream.NothingLostWhenAtomic | app/channels/terminal_channel.rb:34 | if every read is followed at once by its transmit, no PTY chunk is lost and only the held one can repeat |
| TerminalStream.ReconnectCanLose | app/channels/terminal_channel.rb:34 | a run in which a chunk never reaches the screen |
| TerminalStream.ReconnectCanRepeat | app/services/terminals/session.rb:95-96 | a run, with an atomic read, in which a chunk is shown twice |
| TerminalRegistry.InvHolds | app/services/terminals/session.rb:24-44 | in every run each key maps to the session with that id, TERM is sent at most once and only to a closed session, and what is not registered is closed with its descriptors returned |
| TerminalRegistry.OpenRegisters | app/services/terminals/session.rb:24-29 | in every run an open under a new id registers a session that is running and not closed, or one whose start failed, and touches no other |
| TerminalRegistry.ExitOnlyCloses | app/services/terminals/session.rb:105-107 | the exit of a reader closes its session, which stays registered, and changes nothing else |
| TerminalRegistry.ReapSparesHeardAndYoung | app/jobs/terminals/reap_idle_sessions_job.rb:15-27 | in every run a reap leaves each session that is heard or younger than 30 minutes as it was, and unregisters and closes every other registered one |
| TerminalRegistry.ClosedIsFinal | app/services/terminals/session.rb:105-146 | closed never goes back to false, and from then on, after a kill or the reader's exit, no TERM is sent |
| TerminalRegistry.GoneIsFinal | app/services/terminals/session.rb:134-146 | a session that was killed or reaped stays unregistered with its master closed |
| TerminalRegistry.KillEnds | app/services/terminals/session.rb:134-146 | a kill unregisters, closes, and sends TERM exactly to a running session, touches no other, and agrees with the kill by id |
| TerminalRegistry.RunsFollowTable | app/services/terminals/session.rb:24-44 | in every run each operation makes of the table of sessions what the methods below are proved to make of theirs |
| TerminalRegistry.ForVmListsEveryOpenSession | app/services/terminals/session.rb:40-44 | in every run the listing of a VM has exactly its registered sessions, under their own ids, and so every one that is not closed |
| TerminalRegistry.Registry.Open | app/services/terminals/session.rb:24-29 | the session is registered whether or not its start succeeds |
| TerminalRegistry.Registry.ForVm | app/services/terminals/session.rb:40-44 | exactly the registered sessions of the VM, as the same objects |
| TerminalRegistry.Registry.Kill | app/services/terminals/session.rb:134-146 | the session's kill; it raises, and leaves the table alone, exactly if the caller holds the lock |
| TerminalRegistry.Registry.KillById | app/services/terminals/session.rb:35-37 | raises exactly if the id is registered, yet the session is killed and unregistered and the lock is free |
| TerminalRegistry.Registry.ReapIdle | app/jobs/terminals/reap_idle_sessions_job.rb:15-27 | iterating the table while killing visits every entry: the reaped ids are exactly those created 1800 seconds ago or more that are not listened to; all others and their objects are unchanged |
| KillRace.KillByIdRaisesIffFound | app/services/terminals/session.rb:35-37 | in every interleaving a finished kill by id raised exactly if it found the session, and at most one finds it |
| KillRace.KillByIdFindsIff | app/services/terminals/session.rb:35-37 | a kill by id finds its session exactly if it is registered when it looks, closed or not; then it ends, in every continuation, by raising with the session closed, the master closed and the entry gone, and otherwise it changes nothing |
| KillRace.OnlyTheLockHoldsUp | app/services/terminals/session.rb:134-146 | a kill can always go on, unless another kill holds the lock that it needs |
| KillRace.KillsEnd | app/services/terminals/session.rb:134-146 | every kill ends after at most seven steps of its own |
| KillRace.BeginsAndStops | app/services/terminals/session.rb:105-107 | kills may begin and the reader may stop at any time, without touching the kills under way |
| KillRace.EndedKillIsComplete | app/services/terminals/session.rb:134-146 | in every interleaving a kill that raised, or that the reaper did, leaves the session closed, its master closed and its entry gone when it has ended |
| KillRace.LockHolderIsNeverStuck | app/services/terminals/session.rb:143-146 | the nested lock never blocks its holder |
| KillRace.TermIff | app/services/terminals/session.rb:134-139 | a kill sends TERM if and only if it checked `@closed` before any kill had set it and before the reader had stopped |
| KillRace.TwoTermsIff | app/services/terminals/session.rb:134-139 | two kills both send TERM if and only if each checked before the other set the flag |
| KillRace.TermAfterExitIff | app/services/terminals/session.rb:105-107 | a kill sends TERM after the reader's exit if and only if its check had passed before the exit and its TERM had not been sent |
| KillRace.SecondTermNeedsOverlap | app/services/terminals/session.rb:134-139 | the same conditions are needed while kills are still under way |
| KillRace.AtMostOneTermWhenAtomic | app/services/terminals/session.rb:135-136 | with check and mark as one step at most one TERM is sent |
| KillRace.TwoTermsCanBeSent | app/services/terminals/session.rb:135-139 | without it, a run of the reaper and a kill by id that sends two |
| KillRace.TermAfterReaderExit | app/services/terminals/session.rb:105-107 | and a run that sends one after the reader stopped by itself |
| Calendar.DateOfIsInverse | app/jobs/scheduler_tick_job.rb:53-58 | the calendar counted day by day agrees with the closed form of the Gregorian one |
| Calendar.WeekdayIsGregorian | app/jobs/scheduler_tick_job.rb:47 | the weekday counted from the epoch is that of the date by Zeller's congruence |
| Calendar.SameDayOfMonth | app/jobs/scheduler_tick_job.rb:57 | two days with the same number in their month are at least 28 days apart |
| Scheduler.GuardSound | app/jobs/scheduler_tick_job.rb:53-58 | the guard holds for every repeat in a minute; across minutes it holds only at a whole number of days, at least 28 |
| Scheduler.DueIff | app/jobs/scheduler_tick_job.rb:42-48 | a schedule written hh:mm that has not fired yet is due exactly at that minute of the day, on the Gregorian weekdays it names, or on every day if it names none |
| Scheduler.MonthLaterIsSuppressed | app/jobs/scheduler_tick_job.rb:53-58 | every daily schedule that last fired on one of the first 28 days of a month and was then idle for one calendar month misses its match |
| Scheduler.FirstOfFebruaryIsMissed | app/jobs/scheduler_tick_job.rb:53-58 | one such schedule |
| Scheduler.ExactlyOnce | app/jobs/scheduler_tick_job.rb:14-58 | over any run of successive ticks with one in every minute, an enabled schedule fires exactly once in each minute that matches and never in another, except a first match that its firing before the run withholds |
| Scheduler.ExactlyOnceIff | app/jobs/scheduler_tick_job.rb:14-58 | so it fires exactly once in every matching minute if and only if the first of them does not bear the minute, hour and day of the month of that old firing |
| Scheduler.RecentWithholdsNothing | app/jobs/scheduler_tick_job.rb:53-58 | a schedule that never fired, or fired less than 28 days before, is not withheld |
| SchedulerJob.OutcomeMeaning | app/jobs/scheduler_tick_job.rb:83-86 | success, partial and failed mean none, some but not all, and all of the targets failed |
| SchedulerJob.OneRowFires | app/jobs/scheduler_tick_job.rb:22-38 | one row that fires: its VMs, or those of its group, are attempted once each in order, a playbook none, and the one event says how it went |
| SchedulerJob.OutcomesFollowAttempts | app/jobs/scheduler_tick_job.rb:35-37 | in a tick of many rows the outcome of each event is that of its own row's attempts |
| SchedulerJob.RowsTickAlone | app/jobs/scheduler_tick_job.rb:21-25 | a tick changes each row as if it were alone |
| SchedulerJob.TickConservesAttempts | app/jobs/scheduler_tick_job.rb:21-38 | whatever fails, exactly the targets of the firing rows are attempted, once each and in order, with one event per firing row |
| SchedulerJob.TickTimes | app/jobs/scheduler_tick_job.rb:14-39 | over many ticks every row of the table runs as in the exactly-once theorem |
| SchedulerJob.TicksAccount | app/jobs/scheduler_tick_job.rb:21-38 | over any ticks and whatever fails, the events and commands are, in order, those of the rows that fired |
| SchedulerJob.EventsExactlyOnce | app/jobs/scheduler_tick_job.rb:14-58 | over regular ticks an enabled row of the table has exactly one event, and its targets are attempted once, in each minute that matches it and in no other, but for a withheld first match |
| SchedulerJob.Job.Execute | app/jobs/scheduler_tick_job.rb:68-87 | every target is attempted and the outcome is the classification of the failures |
| SchedulerJob.Job.Perform | app/jobs/scheduler_tick_job.rb:14-39 | rows, commands and events after the loop are those of the whole tick |
| SchedulerOverlap.InvHolds | app/jobs/scheduler_tick_job.rb:15-25 | in every interleaving each firing was decided on what its job had loaded, and the jobs that loaded before a write were running at it |
| SchedulerOverlap.JobsTakeTheirSteps | app/jobs/scheduler_tick_job.rb:15-25 | in every run a job can begin while a worker is free, loads the row as the last write left it, decides and makes way |
| SchedulerOverlap.DecideFiresIff | app/jobs/scheduler_tick_job.rb:15-25 | if no job takes more than 86340 seconds, a due job fires if and only if it loaded its copy before every write of its own minute, and that copy does not bear the mark of a firing 28 days ago or more |
| SchedulerOverlap.FiresAgainIff | app/jobs/scheduler_tick_job.rb:15-25 | so a minute gets another firing if and only if its job loaded before all firings of the minute were written |
| SchedulerOverlap.FiringsAreEarlyJobs | app/jobs/scheduler_tick_job.rb:15-25 | over a whole run with that bound and no such mark, a minute has exactly as many firings as there are due jobs of it that decided on a copy loaded before the minute's first write |
| SchedulerOverlap.SecondFiringLoadedEarly | app/jobs/scheduler_tick_job.rb:15-25 | in particular a second firing in a minute loaded its copy before the first one's write, and was running at it |
| SchedulerOverlap.FiringsBoundedByJobs | app/jobs/scheduler_tick_job.rb:15-25 | firings in a minute are at most the jobs that read the clock in it |
| SchedulerOverlap.FiringsBoundedByWorkers | config/queue.yml:5-8 | firings in a minute are at most the workers, so at most one when jobs do not overlap |
| SchedulerOverlap.OverlapFiresTwice | app/jobs/scheduler_tick_job.rb:16-25 | any schedule that is due is fired twice by two overlapping jobs |
| SchedulerOverlap.HeldUpWriteFiresTwice | app/jobs/scheduler_tick_job.rb:15-25 | the bound is exact: runs in which a job held up until the next day's minute, which may be 86341 seconds, makes disjoint jobs fire twice in it |
| Text.ToIIsTruncatedToF | app/services/multipass/vms.rb:333-356 | reading an integer is reading a decimal and truncating it |
| Text.PrintIntRoundTrip | app/services/multipass/vms.rb:154-162 | an integer printed and read back is itself, whatever non-digit follows |
| Text.DecimalReads | app/services/multipass/vms.rb:333-344 | a decimal numeral of any length is read as the number it writes |
| Text.SignsRead | app/services/multipass/vms.rb:333-356 | a sign in front counts once |
| Text.SpaceCodes | app/services/multipass/vms.rb:334 | the characters that are stripped |
| Sizes.ParsersAgree | app/services/multipass/vms.rb:320-356 | for every non-negative size not in K, in any spelling, the disk parser is the memory parser div 1024 |
| Sizes.TenthsRead | app/services/multipass/vms.rb:320-356 | every number with one decimal, in each spelling of K, M, G and T (GiB, GB, G and g, and so on), with or without a blank before it and blanks around: its whole MB and its whole GB |
| Sizes.WholesRead | app/services/multipass/vms.rb:320-356 | the same for whole numbers |
| Sizes.PlainNumbersRead | app/services/multipass/vms.rb:343-355 | a plain number is one of bytes: n / 2^20 MB and n / 2^30 GB, for every integer |
| Sizes.NoUnitIff | app/services/multipass/vms.rb:320-331 | which texts have no unit, and that these are taken as they stand |
| Sizes.BlankReadsAsNothing | app/services/multipass/vms.rb:335 | blank text is no size |
| Sizes.ParsersAgreeInKIff | app/services/multipass/vms.rb:346-356 | in K they agree if and only if the size is below 1 GiB |
| Sizes.KilobytesReadAsBytes | app/services/multipass/vms.rb:337-355 | what each parser makes of a number of K |
| Sizes.SettingsRoundTrip | app/services/multipass/vms.rb:154-162 | the memory and disk values that are set parse back to the same integers |
| Sizes.FormatShape | app/services/multipass/vms.rb:310-318 | what is printed: GiB from 2^30 bytes on, MiB from 2^20 on, to a nearest tenth, and else the bytes |
| Sizes.FormatReparses | app/services/multipass/vms.rb:310-344 | parsing a printed byte count gives the floor of the printed tenths in its unit |
| Sizes.PrintParseBound | app/services/multipass/vms.rb:310-344 | the parsed value is within 52.2 MB in the GiB range, 1.05 in the MiB range and 1 below, for any rounding to nearest |
| Sizes.PrintParseMonotone | app/services/multipass/vms.rb:310-344 | printing and parsing is monotone, also across both unit boundaries |
| BulkVms.RunAllInState | app/services/multipass/vms.rb:211-224 | every VM in the state is attempted once in order despite command errors; it raises if and only if some attempt failed, listing the failing VMs in order; another error stops it at once |
| BulkVms.TargetsAppend | app/services/multipass/vms.rb:212-214 | the targets of a list are those of its parts, in order |
| BulkVms.TargetsOfOne | app/services/multipass/vms.rb:213 | and a VM is a target exactly if it is in the state |
| BulkVms.FailuresAppend | app/services/multipass/vms.rb:215-221 | so are the failures |
| BulkVms.FailuresOfOne | app/services/multipass/vms.rb:217-218 | and a command error is listed as name and message |
| LoginSessions.SweepingIsUnobservable | app/jobs/sessions/sweep_sessions_job.rb:9-12 | after any trace a lookup answers as on a table that is never swept or reaped |
| LoginSessions.SweepTakesExactlyExpired | app/jobs/sessions/sweep_sessions_job.rb:9-12 | in every run a sweep takes every row that expired before it and no other |
| LoginSessions.AcceptedIff | app/models/session.rb:28-53 | a token is accepted if and only if it was issued less than 24 hours ago and not logged out since |
| LoginSessions.Store.IssueToken | app/models/session.rb:28-37 | adds the row with its expiry |
| LoginSessions.Store.FindValid | app/models/session.rb:41-53 | finds exactly a live row, and deletes an expired one |
| LoginSessions.Store.DestroySession | app/controllers/sessions_controller.rb:45-47 | leaves no row of the token behind |
| LoginSessions.Store.SweepExpired | app/jobs/sessions/sweep_sessions_job.rb:9-12 | deletes exactly the rows that expired strictly before now, keeps the others as they are, and counts what it deleted |
| Paths.ExpandJoin | app/services/multipass/playbooks.rb:25-26 | a clean name joined to any directory expands to its direct child |
| Paths.ExpandRender | app/services/multipass/playbooks.rb:25-26 | a clean absolute path written out and expanded is itself |
| Paths.ExpandDots | app/services/multipass/playbooks.rb:25-26 | points, double points and slashes at the end of a path |
| Paths.ExpandStarts | app/services/multipass/playbooks.rb:25-26 | relative names start from the working directory, absolute ones from the root |
| Paths.AcceptedIff | app/services/multipass/playbooks.rb:18-23 | which names are accepted, character by character |
| Paths.SanitizeErrors | app/services/multipass/playbooks.rb:17-23 | what is said of the others |
| Paths.SanitizeIsChild | app/services/multipass/playbooks.rb:16-30 | a name is accepted exactly by its characters and becomes a direct child of the normalised base; the containment check never fires |
| Paths.SanitizeIsInjective | app/services/multipass/cloudinit.rb:36-52 | distinct accepted names have distinct paths |
| FileStore.MakeDirectoriesAdds | app/services/multipass/playbooks.rb:59 | making the base directory fails exactly when a file is in the way, and changes no file |
| FileStore.WriteIsUpdate | app/services/multipass/playbooks.rb:57-61 | a write is a map update at its name and changes no other file; when it fails |
| FileStore.ReadIsLookup | app/services/multipass/playbooks.rb:50-55 | a read is the map's lookup |
| FileStore.DeleteIsRemoval | app/services/multipass/playbooks.rb:63-67 | a delete removes exactly its name, and fails exactly if it is not there |
| Playbooks.ListIsExact | app/services/multipass/playbooks.rb:35-48 | the list is sorted, without repeats, and has exactly the YAML files of the directory |
| Playbooks.ListOutcome | app/services/multipass/playbooks.rb:36-42 | a missing base directory lists nothing, one that cannot be there is an error |
| Playbooks.BeforeIff | app/services/multipass/playbooks.rb:47 | the order of the list is that of the first character where two names differ |
| Playbooks.PerformIsApply | app/services/multipass/playbooks.rb:57-67 | a write or delete on the store is that on the map when it is possible, and nothing otherwise; it spares every other file |
| Playbooks.RunIsApplyAll | app/services/multipass/playbooks.rb:57-67 | after any run of writes and deletes the store is the map that those that succeeded make |
| Playbooks.ListHasEveryPlaybook | app/services/multipass/playbooks.rb:35-48 | after any such run a name is in the list if and only if the last operation that succeeded on it was a write, or there was none and it was there before; a read gives what that write wrote |
| Playbooks.Store.ReadPlaybook | app/services/multipass/playbooks.rb:50-55 | the store's lookup, with its errors |
| Playbooks.Store.WritePlaybook | app/services/multipass/playbooks.rb:57-61 | the store's update; a failed write changes no file |
| Playbooks.Store.DeletePlaybook | app/services/multipass/playbooks.rb:63-67 | the store's removal |
| Templates.SavedIsFoundIff | app/services/multipass/cloudinit.rb:19-31 | content that validates has the header the scan looks for if and only if its first line is not blank, and what the scan finds validates |
| Templates.HasHeaderIff | app/services/multipass/cloudinit.rb:108-113 | the scan looks for a first line of `#cloud-config` with nothing but blanks around it |
| Templates.ValidateIff | app/services/multipass/cloudinit.rb:19-31 | what validates: content that the YAML library accepts and that says so on its first line that is not blank; and what is said of other content |
| Templates.LeadingBlankLineIsNotFound | app/services/multipass/cloudinit.rb:108-113 | an empty line before the header validates and is not found |
| Templates.OfferedIff | app/services/multipass/cloudinit.rb:58-85 | the offered paths are exactly those of the YAML files of the tree that lie right below a readable directory and have the header as their first line |
| Templates.Scanner.Scan | app/services/multipass/cloudinit.rb:58-85 | the scan returns each path at most once and exactly the offered ones, directory by directory |
| Templates.ScannedOrder | app/services/multipass/cloudinit.rb:70-82 | within a directory they come in the order of its entries, each labelled with its entry |
| Templates.EarlierDirectoriesFirst | app/services/multipass/cloudinit.rb:62-84 | what an earlier directory offers comes first |
| Templates.CreatedIsScanned | app/services/multipass/cloudinit.rb:94-98 | a template that validates and is written under an accepted name is offered by any scan that reads its directory, if and only if its first line is not blank |
| GoImport.ImportAddsKeys | lib/tasks/migrate_from_go.rake:47-110 | a section changes no existing row and adds exactly its keys |
| GoImport.FirstEntryWins | lib/tasks/migrate_from_go.rake:47-110 | the first entry for a new key wins |
| GoImport.ImportConfigTwice | lib/tasks/migrate_from_go.rake:16-116 | importing the same configuration again changes nothing, whether it went through or was rolled back, for validations that may look at the other rows |
| GoImport.ConfigImports | lib/tasks/migrate_from_go.rake:16-110 | a configuration that goes through leaves in every section what was there and the first entry of each new key, and sets the settings |
| GoImport.EntriesAre | lib/tasks/migrate_from_go.rake:47-56 | the entries of the first sections: groups with their places, assignments with their groups if these exist, templates |
| GoImport.ConfigFailsIff | lib/tasks/migrate_from_go.rake:16-116 | it is rolled back if and only if some record that is looked at is turned down |
| GoImport.GroupsStepWins | lib/tasks/migrate_from_go.rake:50-56 | a VM in both assignment sections keeps the row of the groups step |
| GoImport.ImportKeepsRows | lib/tasks/migrate_from_go.rake:47-110 | no keyed row that was there is changed |
| GoImport.ImportEventsTwiceIff | lib/tasks/migrate_from_go.rake:123-142 | a second import of the events adds nothing if and only if no valid event lacks an id, or the first id generated for one is taken and aborts it; no event is changed in any case |
| GoImport.EventStays | lib/tasks/migrate_from_go.rake:123-142 | a valid event whose id is new when its line comes is there in the end, as its line has it |
| GoImport.OthersAreSkipped | lib/tasks/migrate_from_go.rake:124-141 | blank and malformed lines, invalid events and events that are there change nothing |
| GoImport.AnonymousEventIsAddedAgain | app/models/event.rb:47-49 | an event without an id is added on every import |
| GoImport.Importer.ImportConfiguration | lib/tasks/migrate_from_go.rake:16-116 | the sections one after another are all done or all undone |
| GoImport.Importer.ImportEventFile | lib/tasks/migrate_from_go.rake:119-143 | bad lines are skipped and the loop goes on; a generated id that is taken ends it |
| Groups.LastPlaceWins | app/models/group.rb:10-16 | the last index of a repeated name wins, an unlisted group keeps its position |
| Groups.ReorderThenSort | app/models/group.rb:10-16 | after reordering by a permutation of all names, sorting by position gives exactly that list |
| Groups.Table.Reorder | app/models/group.rb:10-16 | the loop assigns those positions and skips unknown names |

## Left out

- Processes, PTY calls, signals, ActionCable and Redis: present only by their effects as steps. Delivery to a tab is first-in first-out and a stream is open when `stream_from` returns.
- Base64, SHA-256, bcrypt and random tokens: base64 is a bijection, digests do not collide, session ids are fresh.
- TerminalSession.ScrollbackIsTailOfStream: is about the trim as meant; past 64 KiB the code does what ReaderDiesIff says.
- TerminalSession.ChunkingIsInvisible: likewise about the trim as meant.
- TerminalSession.Session.AppendScrollback: the append as meant; AppendScrollbackAsWritten is the code's.
- TerminalSession.Session.RunReader: the loop with the append as meant; RunReaderAsWritten is the code's.
- TerminalSession.KeystrokesArriveIff: is about messages that reach an open session; what the browser sends before its subscription exists is dropped, and a very large paste can make its encoding throw.
- Partial PTY writes, and input that is not binary: decoded input always is.
- Floating point: decimals are exact, so sizes beyond 2^53 are not modelled; exponents and underscores in numerals are not read.
- Sizes.ParsersAgree: negative sizes are not covered; multipass reports none.
- Text.ToIIsTruncatedToF: for numerals without exponents, as above.
- SchedulerOverlap.SecondFiringLoadedEarly: holds under a bound on how long a job takes, because past it it is false.
- Groups and their members do not change during a run of ticks.
- Time zones and daylight saving: the clock is UTC and starts in 1970.
- The reaper runs where the sessions are, reads the clock once per run, and takes the subscriber counts as given.
- An insertion into the session table while the reaper iterates it, which Ruby refuses.
- Home directories (`~`) in base paths, symbolic links, file permissions, and letters outside ASCII that a case-insensitive pattern may match.
- YAML parsing: any predicate. Field by field copying of imported records, and the counters that are printed.
- Blank group names of schedules: absent groups are `None`.
- Controllers, views, webhooks, host resources, snapshots, mounts, networks and the other JavaScript: requests in, fields out.
