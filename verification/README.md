# Verification of oxdm's state machines and text algorithms

This project models the parts of the oxdm download manager that decide things on their own: they edit a
user's launcher, choose file names, schedule queues, migrate the database, follow downloads, check files and
merge headers. Each module follows one component of the program. Where the program changes things step by
step, the model is a method or a class that does the same steps, proved equal to a function of its inputs or
of its old state; what the program promises is then proved about that function, for all inputs, all runs and
all interleavings.

- `Text`, `DesktopLines`, `LaunchSearch`, `GrantSplice`, `SpliceExact`, `GrantGuard`, `GuardExact`,
  `LaunchExact`, `GuardSound`, `Quoting`, `ExecValue`, `ExecWords`, `FlatpakGrants`: patching a Flatpak
  browser's launcher, the check made before the patched file is written, and the two quotings.
- `IdleWatch`, `PowerGuard`: two protocols between concurrent tasks, as atomic steps in any order.
- `Schedule`, `QueueScheduler`: calendar windows, the start and continue verdicts, the tick loop.
- `Filename`, `Sanitize`: safe names, byte-bounded cuts, numbering.
- `JobOrder`, `Migration`: run order kept in rows, and the schema ladder with crashes between commits.
- `Checksums`, `VerifyFile`: verdicts recorded by digest, and the loop that rechecks a changing list.
- `WaitTracker`, `DiskSpace`, `Headers`, `NativeFrames`: the command line's tracker, the disk-space tally,
  the header overlay, native-messaging frames.

`dafny verify dfyconfig.toml` checks everything.

## Where a promise needs a condition

Some promises hold only under a condition. In these cases the model keeps the program's behaviour, states the
condition as something a caller can see beforehand, and proves it is the exact one.

- Editing a launcher twice: what follows `run` must be a break or the end of the line, on a line
  (`SpliceExact.SettlesExactly`) and in a file (`LaunchExact.FileSettlesExactly`). Otherwise a grant can be
  found across the seam between the inserted text and the rest of the line, and a later grant tears it apart
  again.
- The check before writing refuses correct edits for two reasons. One grant may occur inside another
  (`GuardExact.AcceptedExactly`, for lists of any length), and a launch may run into a word, where a grant and
  the text behind it make another grant (`LaunchExact.LauncherAcceptedExactly`). The edit itself needs only
  the second condition.
- `desktop_quote` reads back by the quoting rule for arguments that are neither empty nor contain a newline
  (`Quoting.DesktopQuoteReadsBack`), but it provides neither for the escapes that string values have
  before that rule nor for the field codes after it: read as a whole, arguments with a backslash or a percent sign are not
  the same (`ExecValue.ReadsBackExactly`).
- The program is started with every grant after the edit, unless a grant stands in the line only as part of
  another word (`ExecWords.EveryArgumentArrivesExactly`); `ExecWords.HiddenArgumentLost` has such a launcher
  for every bare option.
- A confirm that answers yes has ended the waiting, not made the action certain
  (`PowerGuard.ConfirmAnswers`, `PowerGuard.YesCanStillBeCancelled`).
- Sanitising a name twice (`Sanitize.AgainExactly`, `Sanitize.AgainExactlyBefore`), with the two families of names that change again.
- `unique_name` can return a taken name once 10,001 particular keys are taken (`Filename.ClashesExactly`).
- A database that has a job table but no recorded version is stamped with the current version without being
  migrated (`Migration.UnstampedIsTrusted`, `Migration.UnstampedExample`). The comment above the ladder does not mention this case.
- The user agent option follows the first `User-Agent` of a job and the header the last
  (`Headers.UserAgentAgreesExactly`, `Headers.TwoUserAgentsPartWays`); they differ only for a list that names it twice.
- `write_framed` casts the length to 32 bits (`NativeFrames.LengthFieldExact`).

## Model

| member | source | states |
|---|---|---|
| DesktopLines.SplitKeepingEnds | src/data/native_host.rs:652-664 | the loop returns the lines of the body, each with its terminator; what lines are is pinned down by the next two rows |
| DesktopLines.FlattenLines | src/data/native_host.rs:651-664 | gluing the lines back together gives the body, character for character |
| DesktopLines.LinesOfFlatten | src/data/native_host.rs:651-664 | and any list of well-formed lines (a newline only at the end, and at the end of all but the last) glued together is cut into those lines again |
| DesktopLines.EndingUnique | src/data/native_host.rs:666-669 | a text without a terminator at its end, followed by carriage returns and then newlines, is split exactly there; with `EndingShape` the split is the only one of that shape |
| DesktopLines.EndingShape | src/data/native_host.rs:666-669 | a line splits into text and ending: the text ends in neither terminator, the ending is carriage returns and then newlines, and the two make up the line |
| LaunchSearch.AfterFlatpakRun | src/data/native_host.rs:671-689 | hopping from one `flatpak` to the next finds the end of the first launch, as defined by looking at every position |
| LaunchSearch.FirstLaunchIsLeftmost | src/data/native_host.rs:671-689 | the launch found is the leftmost `flatpak`, blanks, `run`; nothing is found only if there is none anywhere |
| LaunchSearch.LaunchIsExactly | src/data/native_host.rs:671-689 | told without the search: the cut is right behind the leftmost place where `flatpak`, at least one space or tab and nothing else, and `run` follow one another |
| GrantSplice.PatchText | src/data/native_host.rs:626-645 | the token loop with its moving insertion point: the result is the old text with the placed grants, in order, in one place after `run` |
| GrantSplice.SpliceExec | src/data/native_host.rs:619-649 | the whole edit maps the line edit over the lines |
| GrantSplice.TextIdempotent | src/data/native_host.rs:610-649 | for grants that reach into nothing they are put beside, a launch line holds every grant after the edit, and editing it again adds nothing |
| GrantSplice.SpliceKeepsLines | src/data/native_host.rs:613-618 | as many lines as before, every line ending byte for byte, every line that is not an `Exec=` line byte for byte |
| GrantSplice.SpliceIdempotent | src/data/native_host.rs:610-649 | editing an edited file changes nothing; grants may contain one another |
| GrantSplice.PlainIsSpliceable | src/data/native_host.rs:433-446 | blank-free, newline-free `--` options always meet the condition of the two idempotence results |
| SpliceExact.SettlesExactly | src/data/native_host.rs:610-689 | a line settles after one edit for all lists of plain options if and only if what follows `run` is a break or the end of the line, or there is no launch |
| LaunchExact.FileSettlesExactly | src/data/native_host.rs:610-649 | a file settles after one edit for all lists of plain options if and only if every launch in it ends in a break or with its line |
| SpliceExact.UnsafeLaunchRepeats | src/data/native_host.rs:610-689 | for every line whose `run` runs into another word, three plain options that make the second edit change the file again |
| GrantGuard.OnlyExecGrantsChanged | src/data/native_host.rs:535-575 | the check's nested loops and its four refusals, as a function of the two files and the grants |
| GrantGuard.GuardAcceptsSplice | src/data/native_host.rs:533-575 | the check accepts what the edit produced, for every file whose launches end in a break and all grants that neither reach into nor contain one another |
| GrantGuard.StripsPlaced | src/data/native_host.rs:556-572 | taking the counted grants out again, in whatever order the check meets them, restores the old line |
| GuardExact.AcceptedExactly | src/data/native_host.rs:533-575 | any list of plain options passes the check on every such file if and only if none of them occurs inside another |
| GuardExact.RefusesInner | src/data/native_host.rs:556-575 | where the second option contains the first, a concrete launcher on which the correct edit is refused |
| GuardExact.RefusesNested | src/data/native_host.rs:556-575 | for every list in which one option contains another, a launcher on which the correct edit is refused: the one that has every option but the outermost |
| LaunchExact.LauncherAcceptedExactly | src/data/native_host.rs:533-649 | a launcher passes the check for all lists of plain options of which none contains another if and only if each of its launches ends in a break or with its line |
| LaunchExact.UnsafeLaunchRefused | src/data/native_host.rs:556-575 | for every line whose `run` runs into another word, two such options that are refused on it |
| GuardSound.AcceptedOnlyGained | src/data/native_host.rs:533-575 | whatever produced the new file: once accepted it has as many lines, and each is the old line, or an `Exec=` line made from the old one by inserting some of the grants, each behind a space and none counted more than once more than before |
| GuardSound.RefusalsExactly | src/data/native_host.rs:545-573 | which refusal a changed line gets, told from the two lines: not an `Exec=` line, some grant counted more than once more than before, or anything else |
| GuardSound.FirstRefusalDecides | src/data/native_host.rs:545-573 | the first line refused decides for the whole file |
| GuardSound.EndingsAreNotCompared | src/data/native_host.rs:535-548 | files that differ only in newline against carriage return and newline pass as equal, and no verdict depends on which it is |
| Quoting.ShellRoundTrip | src/data/native_host.rs:405-456 | reading the printed grants by section 2.2 of the POSIX Shell Command Language (IEEE Std 1003.1) gives back exactly the arguments, whatever characters they hold, empty arguments and empty lists included |
| Quoting.ChainIsOnePass | src/data/native_host.rs:470-474 | the four replacements one after the other equal one pass that escapes each special character |
| Quoting.DesktopQuoteReadsBack | src/data/native_host.rs:463-476 | reading by the quoting rule of the Exec key section of the Desktop Entry Specification, and by that rule alone, gives the argument back if and only if it is not empty and holds no newline |
| Quoting.QuotedWhenNeeded | src/data/native_host.rs:463-476 | an argument is printed without quotes if and only if it holds none of the characters that the specification reserves, a newline aside |
| ExecValue.ReadsBackExactly | src/data/native_host.rs:458-476 | reading by the whole specification (the escapes of string values, then the quoting rule, then the field codes) gives the argument back, whatever the field codes stand for, if and only if it is not empty and holds no newline, percent sign or backslash, nor, where escapes the specification does not list are refused, a double quote, backtick or dollar sign |
| ExecValue.OrdinaryArgumentsLost | src/data/native_host.rs:463-476 | two mounts of ordinary folders that are not read back: one with a percent sign and one with a backslash in its name |
| ExecWords.InsertAddsWords | src/data/native_host.rs:638-645 | by the quoting rule, inserting printed arguments where a word ends adds exactly those arguments to the words of the command line, right behind the words up to there |
| ExecWords.PlacedAreMissing | src/data/native_host.rs:632-645 | the grants placed are exactly the printed forms of the arguments the line did not hold, in the order given |
| ExecWords.LauncherGainsMissing | src/data/native_host.rs:610-649 | what the program is started with afterwards, by the whole reading and whatever the field codes stand for: the old arguments, with the missing ones right behind those up to `run`, for arguments that read back |
| ExecWords.EveryArgumentArrivesExactly | src/data/native_host.rs:610-649 | after the edit the program is started with every argument if and only if it was already started with each one whose printed form the line held |
| ExecWords.HiddenArgumentLost | src/data/native_host.rs:632-635 | for every bare option, a launcher that holds it only as the end of another word: the edit changes nothing and the program never gets the option |
| ExecWords.HiddenArgumentExample | src/data/native_host.rs:632-635 | one of these: `Exec=flatpak run x--a` with the option `--a` |
| FlatpakGrants.OrdinaryMountsSplice | src/data/native_host.rs:433-478 | for the mount arguments of any list of ordinary paths, with spaces, quotes and backslashes in them: printed, spliced, spliced again without change, and accepted by the check |
| IdleWatch.Watch.WantReadings | src/data/idle.rs:115-124 | changing the mask in place is the step of the protocol, and a ring is owed exactly when demand rose from nothing |
| IdleWatch.Watch.Turn | src/data/idle.rs:163-193 | each atomic action of the poll loop is the step of the protocol |
| IdleWatch.WatchSafety | src/data/idle.rs:115-193 | in every interleaving: a parked poller with demand has a ring on its way that wakes it (no lost wakeup), nothing is published while it waits, a published answer means the host is supported, and the mask is empty exactly when nobody's last word was to want readings |
| IdleWatch.MaskIsLastWord | src/data/idle.rs:115-124 | a consumer's bit is set exactly when the last thing it declared was that it wants readings, whatever the others did in between |
| IdleWatch.IdleNeedsAReading | src/data/idle.rs:93-100 | idleness is claimed exactly when there is a reading of at least so many whole minutes, so never while the poller is parked or on a host that never answered; more minutes imply fewer |
| IdleWatch.DemandIsServed | src/data/idle.rs:115-193 | while demand stays, any run with seven poller turns publishes a sample taken after the run began, and the reading is then the answer of the probe it is numbered after; with no ring outstanding the poller is not parked |
| IdleWatch.RingsAreRises | src/data/idle.rs:115-124 | conservation: rings made and rings owed together are the times demand came up from nothing, over every run |
| IdleWatch.SilenceParks | src/data/idle.rs:163-193 | with nobody asking, no probe is begun, every turn brings the poller nearer to parking with a bound on the turns, and a parked watch shows no reading |
| IdleWatch.SupportedStays | src/data/idle.rs:102-107 | the host counts as able to answer exactly from the first answered probe on, and for good |
| IdleWatch.TickIdleExact | src/data/idle.rs:305-314 | rebuilding the tick of the last input from its low half gives the true idle time if and only if that input is less than 2^32 milliseconds old |
| PowerGuard.Guard.Arm | src/data/power.rs:106-169 | arming succeeds exactly on an enabled guard with a free slot, and then fills the slot and starts one task |
| PowerGuard.Guard.Cancel | src/data/power.rs:173-183 | whatever was pending, the slot is empty afterwards; its number is among the cancelled and its abort is on the way to its grace task |
| PowerGuard.Guard.Confirm | src/data/power.rs:192-205 | the part under the lock: the signal is handed out at most once for an arming, which stays in the slot |
| PowerGuard.ConfirmAnswers | src/data/power.rs:192-205 | the answer once a signal was handed out: yes means the grace task never waits for its timer again, and ends without executing only if its arming was cancelled; no means no task was changed, and that one had run on by itself or its arming was cancelled |
| PowerGuard.ConfirmFindsNoSignal | src/data/power.rs:192-205 | the other no: with nothing armed, or the signal already handed out and on its way or arrived or no longer waited for, nothing changes |
| PowerGuard.YesCanStillBeCancelled | src/data/power.rs:173-205 | a run in which confirm answers yes and a cancel still stops the grace task before it runs on |
| PowerGuard.Guard.Claim | src/data/power.rs:132-155 | a woken task gets the slot exactly when its own number is in it |
| PowerGuard.ArmingsArePartitioned | src/data/power.rs:106-205 | over every interleaving with late wakeups, aborts and signals: the successful armings are the disjoint union of those executed, the ones executing, those cancelled and the one in the slot; none executes twice, each executes the action it was armed with |
| PowerGuard.CancelIsFinal | src/data/power.rs:173-183 | once cancelled never executed, once claimed never cancelled, however the run goes on |
| PowerGuard.CancelStops | src/data/power.rs:173-183 | after any cancel, no task armed before it that is neither executing nor executed ever executes, whatever happens later, told by the phases of the tasks and not by the history of cancels |
| PowerGuard.UndisturbedExecutes | src/data/power.rs:106-169 | on an enabled guard with a free slot, in any reachable state: an arming nobody disturbs executes its action once and frees the slot |
| PowerGuard.ConfirmedExecutes | src/data/power.rs:106-205 | and one that is confirmed does so too, its signal being taken by the waiting task |
| PowerGuard.ClaimTakesItsOwn | src/data/power.rs:130-150 | a task that wakes late takes its own arming or leaves the slot alone, and in the latter case its arming was cancelled |
| PowerGuard.SlotIsBacked | src/data/power.rs:106-205 | an occupied slot has a live task behind it and no abort under way to it; aborts never reach a task that claimed; when all tasks have ended the slot is free; a disabled guard never arms |
| Filename.UniqueName | src/domain/filename.rs:152-168 | the counting loop returns the name itself if it is free, else the first candidate not taken, else the last one |
| Filename.ClashesExactly | src/domain/filename.rs:150-168 | the name returned is taken if and only if its own key and the keys of all ten thousand candidates are |
| Filename.UniqueNameIsFree | src/domain/filename.rs:150-168 | pigeonhole: with at most 10,000 keys taken the result is free, for any character-wise fold that keeps digits; 10,001 suitable keys defeat it |
| Filename.NumberedBeforeExtension | src/domain/filename.rs:140-168 | a taken name keeps its stem and its extension and gets the least free number |
| Filename.FreeNamesStay | src/domain/filename.rs:150-168 | a free name is kept, trimmed, and a name that came out free is its own unique name |
| Filename.DecimalReadsBack | src/domain/filename.rs:162 | the digits in a candidate, read as a decimal number, are the number tried |
| Filename.CandidateSplits | src/domain/filename.rs:174-189 | splitting a numbered name gives back the extension of the original and its stem with the number, tarballs and leading dots included |
| Filename.SplitsExactly | src/domain/filename.rs:170-189 | where any name is split: a compressed tarball before its `.tar` in any case, any other at its last dot, and a leading dot or no dot nowhere |
| Filename.CharLenIsShortest | src/domain/filename.rs:119-139 | the byte length counted for a character is that of the shortest UTF-8 form it fits in, by the payload bits of RFC 3629 |
| Filename.BidiControlsAreDeceptive | src/domain/filename.rs:25-58 | every bidirectional control is a deceptive character; the two joiners that scripts need, and all of ASCII, are not |
| Sanitize.TruncateBytes | src/domain/filename.rs:126-139 | stepping the byte offset back to a character boundary keeps the most characters whose bytes fit beside the extension |
| Sanitize.TruncatedFits | src/domain/filename.rs:124-139 | the cut name is within the limit, and gives up at most three bytes of it |
| Sanitize.SanitizedIsSafe | src/domain/filename.rs:66-118 | every name returned: not empty, not `.` or `..`, no separator, control, forbidden or deceptive character, each listed, first part none of the 22 device names even after the cut, at most 255 bytes, not starting with white space |
| Sanitize.DirectoriesAreIgnored | src/domain/filename.rs:76-80 | whatever stands before a separator of either kind makes no difference to the name returned |
| Sanitize.CharacterFates | src/domain/filename.rs:79-118 | inside an ordinary name every character has its own fate: control and deceptive characters go, each forbidden one becomes `_`, every other one stays, and the rest of the name is untouched |
| Sanitize.DeviceNamesAreMarked | src/domain/filename.rs:106-114 | a clean device name that fits comes back whole behind an underscore, its extension included |
| Sanitize.OnlyDevicesAreMarked | src/domain/filename.rs:106-114 | before the cut, the tidied name is whole at the end, at most one character is put in front of it, and that exactly if its first part is a device name |
| Sanitize.DevicesAreReserved | src/domain/filename.rs:61-65 | the names that are pushed out of the way are exactly the 22 listed |
| Sanitize.UsableExactly | src/domain/filename.rs:75-105 | a claim whose last component shows any character but dots leaves a name; where its white space is spaces and control characters, only such a claim does |
| Sanitize.AgainUnchanged | src/domain/filename.rs:79-118 | a name that is clean, no device, does not end in a dot or white space and fits is returned as it is |
| Sanitize.SanitizedKeepsExtension | src/domain/filename.rs:112-139 | a name that fits is returned whole; one over 255 bytes keeps a prefix of itself, at least 252 bytes with the extension, and the whole extension where that is at most 16 bytes |
| Sanitize.AgainExactly | src/domain/filename.rs:79-118 | sanitising twice equals sanitising once if and only if the first result does not end in a dot or white space |
| Sanitize.AgainExactlyBefore | src/domain/filename.rs:79-139 | the same told before the first call cuts anything: the last character that will be returned is not white, nor a dot where the name loses its end |
| Sanitize.AgainForPlainNames | src/domain/filename.rs:79-118 | which is always so when the white space of the claimed name is spaces and control characters and the name fits or keeps an extension |
| Sanitize.WideSpaceSurvivesOnce | src/domain/filename.rs:84-104 | the first family where it is not: other white space in front of a dot that a deceptive character hid |
| Sanitize.CutCanEndOnADot | src/domain/filename.rs:126-139 | the second family: a cut without an extension that falls right behind a dot |
| Schedule.WeekDayMask.Set | src/domain/queue.rs:385-392 | setting a day changes that day's bit, to the value asked for, and no other |
| Schedule.DayBitsInOrder | src/domain/queue.rs:369-383 | bit 0 is Monday and so on through the week: a mask of one bit selects exactly that day |
| Schedule.DailyExactly | src/data/queue_scheduler.rs:223-323 | a recurring queue starts exactly when a selected day's start lies before now by less than the window: up to the stop time, across midnight where the stop is earlier, a whole day where they are equal, fifteen minutes without one |
| Schedule.OnceExactly | src/data/queue_scheduler.rs:237-260 | a one-shot queue starts exactly between its start and its end, or within twelve hours where there is no end; a running one without an end goes on |
| Schedule.TwoDaysSuffice | src/data/queue_scheduler.rs:292-323 | looking at yesterday and today finds an occurrence if and only if any day at all has one covering now, and that occurrence is the only one |
| Schedule.WeekHoldsItsWindows | src/data/queue_scheduler.rs:292-323 | any seven days in a row, beginning at any second, hold exactly selected days times window length due seconds, windows past midnight and whole days included |
| Schedule.EnabledKinds | src/domain/queue.rs:329-347 | a condition is in the vector if and only if its switch is on, and the vector is strictly in display order, so each stands in it once |
| Schedule.DisplayOrderUnique | src/domain/queue.rs:329-347 | the switches determine that vector: two vectors in display order with the same conditions are equal |
| Schedule.DisplayOrderIs | src/domain/queue.rs:329-347 | with every switch on it is: arrival, unmetered, idle, mains power, command |
| Schedule.OneConditionExactly | src/data/queue_scheduler.rs:261-274 | a schedule with one live condition starts exactly when that condition's own probe says so: link, power, idle minutes, command; an arrival never starts on a tick and always lets a run go on |
| Schedule.ConditionsCombine | src/domain/queue.rs:349-367 | over the live conditions, of which there must be one, `All` is the conjunction and `Any` the disjunction of the verdicts each would give alone |
| Schedule.ShouldImpliesMay | src/data/queue_scheduler.rs:192-274 | whatever would start a queue would also let it go on |
| Schedule.VerdictsAgreeExactly | src/data/queue_scheduler.rs:223-274 | start and continue agree at every time and for every probe answer if and only if the schedule has a stop time or its live conditions do not include the arrival of a download |
| QueueScheduler.Scheduler.Tick | src/data/queue_scheduler.rs:96-130 | one turn of the loop over the queues: what is started and stopped, and a memory of exactly the queues still listed |
| QueueScheduler.Drive | src/data/queue_scheduler.rs:85-132 | running the loop over any sequence of ticks gives the events the lemmas below speak about |
| QueueScheduler.FiresExactly | src/data/queue_scheduler.rs:98-125 | which events a listed queue gets on a tick, in terms of this tick's verdicts and the previous tick's start verdict |
| QueueScheduler.StartsAreRisingEdges | src/data/queue_scheduler.rs:98-125 | over any run, with queues edited, added and deleted: a queue is started exactly on the rising edges of its start verdict, and a tick on which it should run never stops it |
| QueueScheduler.StartBetweenStops | src/data/queue_scheduler.rs:98-125 | between two stops of a queue lies a start, unless the later one stops a run that an arriving download began |
| QueueScheduler.StartsAndStopsAlternate | src/data/queue_scheduler.rs:98-125 | while a queue keeps a schedule that does not start on a moment, its starts and stops alternate, on hosts where the arrival of a download is an available condition, as it is everywhere (src/data/conditions.rs:49), and elsewhere but for stops of runs that an arrival began |
| QueueScheduler.OnlyStartedAreStopped | src/data/queue_scheduler.rs:98-125 | a queue is only stopped if the tick before would have started it or an arriving download can have and it is active; one begun by hand on another schedule never is |
| QueueScheduler.TriggeredIsStopped | src/data/queue_scheduler.rs:105-119 | a run that an arrival began is stopped by the first tick on which it may not go on |
| QueueScheduler.OwnCommandDecides | src/data/queue_scheduler.rs:98-102 | each queue is judged by the answer to its own command and by no other queue's |
| QueueScheduler.HostProbesDecide | src/data/queue_scheduler.rs:98-102 | and by this tick's probes of the host |
| JobOrder.JobTable.MoveJobToEnd | src/data/store.rs:612-625 | the update gives the job one more than the highest position and touches nothing else |
| JobOrder.JobTable.SetQueueOrder | src/data/store.rs:632-652 | the updates in one transaction give the jobs consecutive positions above the highest, in the order given |
| JobOrder.JobTable.UpsertJob | src/data/store.rs:654-731 | an existing row keeps its position and creation time; a new one gets position 0 |
| JobOrder.CallRefines | src/data/store.rs:548-742 | each call on the table is one operation on the listed order: to the end, these to the end in turn, insert by creation time among the unmoved, remove |
| JobOrder.AllToEndClosed | src/data/store.rs:632-652 | moving distinct ids to the end in turn gives the old order without them, then those that exist in the order given |
| JobOrder.RunOrderMeans | src/data/store.rs:606-652 | for distinct jobs that exist: the old order without them, then exactly `ids`; moving one job to the end is the case of one |
| JobOrder.UpsertRefines | src/data/store.rs:654-731 | upserting an existing job leaves the order alone; a new one is inserted without moving any other |
| JobOrder.NewJobStands | src/data/store.rs:548-731 | a job created after all unmoved ones stands behind each of them and before every moved one |
| JobOrder.DeleteRefines | src/data/store.rs:735-742 | deleting a job removes it from the order and moves nothing |
| JobOrder.Lists | src/data/store.rs:548-742 | along any sequence of calls the list operations, carried out one after the other, give an order of the table at every point |
| JobOrder.ListingUnique | src/data/store.rs:548 | where no two rows tie, the sorted query has only one answer |
| JobOrder.CallsDetermineTheList | src/data/store.rs:548-742 | from an empty table, over any sequence of calls with distinct creation times, what the query returns is what the list operations give |
| Migration.AddedColumnReadsBack | src/data/store.rs:1075-1079 | the column name is read off every statement of the ladder's form, whatever the column and its declaration |
| Migration.Store.ApplyMigration | src/data/store.rs:259-277 | one rung: its statements and the version together, or on an error neither |
| Migration.Store.Migrate | src/data/store.rs:77-242 | the ladder's loop, dying after any number of commits: the outcome and what is on disk then |
| Migration.AppliedAddsMissing | src/data/store.rs:259-277 | a rung adds the columns that are missing and never one that is there, from any set of columns |
| Migration.OpenKeepsSound | src/data/store.rs:77-277 | a recorded version vouches for all columns up to it, before and after any opening however far it gets, and no opening fails on a duplicate column |
| Migration.LadderSurvivesCrashes | src/data/store.rs:163-277 | after any number of starts that died anywhere, the first start left alone ends at the current version with every column |
| Migration.StartsExactly | src/data/store.rs:77-242 | a start is done exactly when it lives through the commits it needs; one that dies earlier leaves the version as many rungs higher as it made commits |
| Migration.StrandedIsRecovered | src/data/store.rs:244-277 | a database with any columns ahead of its version is brought up to date and keeps what it had |
| Migration.UnknownIsRefused | src/data/store.rs:163-236 | a database is refused if and only if its recorded version is not one of the ladder's; its version and columns stay as they were, and a job table is created only if there was none |
| Migration.UnstampedIsTrusted | src/data/store.rs:147-157 | a database without a recorded version is stamped with the current one and not climbed: that is right if and only if it had no job table or a complete one |
| Migration.UnstampedExample | src/data/store.rs:147-157 | a job table that lacks the last rung's column and has lost its version is stamped 9 and stays without the column |
| Migration.JobsSchemaIsSchema | src/data/store.rs:104-231 | the store's own nine versions are such a ladder, and the 32 columns of its CREATE TABLE include all the ladder adds |
| Migration.ReleasesExactly | src/data/store.rs:104-231 | each release's table had exactly those of the 32 columns that had been brought by then, column by column |
| Migration.UpgradedIsNew | src/data/store.rs:104-231 | the table of any release, opened once and left alone, ends at version 9 with exactly the columns of a new one |
| Migration.LadderDeclares | src/data/store.rs:104-231 | and the ladder declares each column it adds just as CREATE TABLE does, type and default included |
| Checksums.RowsToVerifyAre | src/data/mapping.rs:332-339 | a row is checked if and only if it came from the server or the user and holds as many hexadecimal digits as its algorithm has bits, a quarter of them, and nothing else but white space around |
| Checksums.ApplyVerdicts | src/domain/checksum.rs:123-130 | the nested loops that write rows in place: each row ends as the verdicts, one after the other, make of it |
| Checksums.SameDigestIsDigestEquality | src/domain/checksum.rs:84-87 | `same_digest` is equality of digests, so symmetric and transitive, across spellings |
| Checksums.SpellingDoesNotMatter | src/domain/checksum.rs:84-87 | two spellings of one digest are well-formed together or not at all |
| Checksums.VerdictsFollowDigests | src/domain/checksum.rs:121-130 | for verdicts made from one file, recorded on a list changed in any way: a row is set to the truth about its own digest if that digest was checked, and is untouched if not |
| Checksums.OrderDoesNotMatter | src/domain/checksum.rs:121-130 | neither the order of the verdicts nor repeating one makes a difference |
| VerifyFile.VerifyRows | src/data/runner.rs:558-615 | hashing once for each algorithm answers truly about every row asked for, or fails by cancellation or an unreadable file |
| VerifyFile.Verify | src/data/runner.rs:407-485 | against a list that may change at every read and a file that may change between rounds: on success every checkable row of the last list read was judged verified by a round whose file had its digest; a mismatch reports the first one judged, with what the file had then; no digest is judged in two rounds; it terminates when the digests presented are finitely many |
| VerifyFile.VerdictsOfRows | src/domain/checksum.rs:104-119 | naming results by digest: one true verdict for each row checked |
| VerifyFile.NewRound | src/data/runner.rs:421-433 | a round judges something, and only digests no earlier round judged: the measure that makes the loop end |
| VerifyFile.SuccessMarksEveryRow | src/data/runner.rs:466-485 | recording a successful run on the last list marks every checkable row verified |
| WaitTracker.Tracker.ObserveState | src/cli/wait.rs:87-172 | the lines printed and the fields changed for one look at one download |
| WaitTracker.Tracker.CountersTick | src/cli/wait.rs:177-206 | the same for a tick of live counters, with the speed in whole bytes and the name, and whether the phase moved |
| WaitTracker.Tracker.Failure | src/cli/wait.rs:210-220 | the first download, in the order named, that ended without its file; none exactly when all that ended completed |
| WaitTracker.DoneAndCleanMeansCompleted | src/cli/wait.rs:73-220 | done and no failure if and only if every download completed |
| WaitTracker.TracksAreSeparate | src/cli/wait.rs:87-206 | over any interleaving of calls, each download's state is what its own looks make of it |
| WaitTracker.EveryLookIsHeard | src/cli/wait.rs:87-206 | and what a look prints and answers is what the looks at that download alone make of it; nothing is printed for one nobody waits for |
| WaitTracker.LookSettles | src/cli/wait.rs:87-206 | a look prints a terminal line, only one and last, exactly when it sets the outcome |
| WaitTracker.OneTerminalLine | src/cli/wait.rs:87-206 | over any sequence of looks: at most one terminal line, exactly when the outcome is set, and nothing afterwards |
| WaitTracker.OutcomeIsFirstEnd | src/cli/wait.rs:87-172 | over any sequence of looks, the outcome and the terminal line are what the first ending look reported: completed, failed with its kind, a conflict, stopped, or removed |
| WaitTracker.TrackRemembers | src/cli/wait.rs:87-206 | the fields hold what was printed last, as read off the printed lines alone |
| WaitTracker.LinesAreNews | src/cli/wait.rs:112-206 | no phase or name line repeats the previous one; progress lines come at least `progress_every` apart, with another byte count, only while bytes arrive, and with the name printed last |
| WaitTracker.LinesExactly | src/cli/wait.rs:87-206 | both ways, from the lines printed before: which phase, name, progress and terminal lines each look prints, and that the phase is reported as moved exactly for counters whose phase is not the one printed last, while there is no outcome |
| WaitTracker.PhasesAreSorted | src/domain/job.rs:122-137 | no phase is both running and finished, only a queued one is neither, and those after the transfer are running ones |
| DiskSpace.RequiredByVolume | src/data/space.rs:52-75 | each volume's tally is the smaller of u64::MAX and the true sum of what is left to fetch and of whole files there; volumes with nothing wanted are absent |
| DiskSpace.ChargesAreDemand | src/data/space.rs:57-72 | the charges made folder by folder add up to the demand: what is left of the parts in the work folder and the whole file in the save folder |
| DiskSpace.WorstShortfall | src/data/space.rs:82-100 | the reported entry is short, and no short entry has a larger needed minus available, written out; none is reported exactly when none is short. Entries that only reach into the reserve tie at zero |
| DiskSpace.ShortExactly | src/data/space.rs:82-100 | saturating or not, the comparison is right: not short if and only if the true demand and the reserve fit |
| DiskSpace.CheckSpace | src/data/space.rs:47-100 | both together: no shortfall if and only if on every measurable volume the true sum and the reserve fit |
| Headers.UpsertLookup | src/domain/headers.rs:28-35 | an upsert decides the lookup of its own name under every spelling and of no other |
| Headers.UpsertKeeps | src/domain/headers.rs:26-35 | names keep first spelling and position, and stay unique |
| Headers.OverlayHeaders | src/data/mapping.rs:153-194 | the overlay's loop and early return, and the user agent it sets beside the headers |
| Headers.OverlayPrecedence | src/data/mapping.rs:150-194 | each name, under any spelling, is looked up as: bearer token, stored cookies, the job's last value, referrer, global |
| Headers.OverlayKeepsNames | src/data/mapping.rs:150-194 | global names keep spelling and place; names stay unique as section 5.1 of RFC 9110 compares them |
| Headers.UserAgentAgreesExactly | src/data/mapping.rs:179-186 | the user agent option and the header agree if and only if the job's first and last value for it are the same, which holds whenever the job names it once |
| Headers.TwoUserAgentsPartWays | src/data/mapping.rs:176-186 | a job that names the header twice, spelled differently: the option takes the first value and the header the last |
| Headers.NormalizeHeaders | src/domain/headers.rs:46-58 | the clean-up loop |
| Headers.NormalizeIdempotent | src/domain/headers.rs:42-58 | cleaning up twice is cleaning up once |
| Headers.NormalizeLastWins | src/domain/headers.rs:42-58 | the cleaned list answers every name with the last value it was given |
| Text.AsciiLowerFolds | src/domain/headers.rs:22-24 | names are compared with each of the 26 capitals as its small letter and every other character as itself |
| Text.TrimIs | src/domain/headers.rs:22-24 | trimming takes off the white space around a text and nothing of the text |
| NativeFrames.ReadFrames | src/bin/oxdm-native-host.rs:93-121 | the stdin loop forwards what `Forwarded` says of the whole input |
| NativeFrames.FramesReadBack | src/bin/oxdm-native-host.rs:93-202 | framed messages come out in order less the invalid ones, and what follows is read from the right place: a dropped frame never desynchronises |
| NativeFrames.RoundTrip | src/bin/oxdm-native-host.rs:93-202 | valid messages of 1 byte to 4 MiB survive framing and reading |
| NativeFrames.PrefixForwardsPrefix | src/bin/oxdm-native-host.rs:93-121 | any input cut anywhere forwards a prefix of what the whole would |
| NativeFrames.CutInsideAFrame | src/bin/oxdm-native-host.rs:93-202 | a pipe that ends inside a frame forwards exactly the valid messages before it |
| NativeFrames.BadLengthEnds | src/bin/oxdm-native-host.rs:98-104 | a length of zero or over the limit ends the session with exactly the valid messages before it |
| NativeFrames.LengthFieldExact | src/bin/oxdm-native-host.rs:195-202 | the length written is the payload's if and only if that fits in 32 bits |
| NativeFrames.LeastByteFirst | src/bin/oxdm-native-host.rs:98 | the four length bytes are read with the least significant first |

## Left out

- Text is a sequence of characters with UTF-8 lengths where bytes matter; byte offsets into strings and invalid UTF-8 are not modelled.
- Case folding of file names is any function on single characters that keeps digits; Unicode folding that changes the length of a name is not modelled.
- The reader of an Exec value answers nothing for an unquoted reserved character. What a field code stands for is any function of the code; that a launcher may undo quoting and field codes together, and what it does with codes inside quotes, are not modelled. An escape that the specification does not list is either refused or kept.
- `patch_desktop` and `write_desktop`: finding, backing up and replacing the file.
- The check before writing compares lines without their terminators, so it does not see a change of line ending; that the edit makes none is `GrantSplice.SpliceKeepsLines`.
- Shared memory is sequentially consistent: the atomics' orderings are not modelled, nor dropped receivers and daemon shutdown.
- The outcome of a power action, the countdown events and their order, and the clock that wakes a task: a wakeup can come at any time.
- Time zones and clock changes: times are local seconds, days have 86,400 of them.
- `poll_due_commands` and the probes of conditions: their answers are inputs of a tick. A failing start or stop is not modelled.
- SQLite: a table is a map, a transaction one step, a column name an exact string (the program and SQLite compare names without case), positions are unbounded integers. Rows that tie in position and creation time may be listed either way round.
- Columns of the job row other than position and creation time, and the tables other than the job table.
- VerifyFile.Verify: progress reports, the phase announcements and their byte counts are not modelled. The set of digests that is presented over time is assumed finite, without which the loop need not end.
- `EventPump`: a queue with one consumer, whose order is that of the channel it uses.
- `merge_checksums` and `engine_checksums`: appending what is not there yet.
- The texts of errors and their classification: a failed download carries its kind.
- WaitTracker.Tracker.CountersTick: the speed is a real number, so a speed that is not a number (printed as zero) is left out, and byte counts are unbounded.
- `volume_key` and free-space queries: any function from folders to volumes and from folders to an optional size.
- The receiving side of the native host going away, and reading in pieces: the input is one finite sequence of bytes. Whether a payload is text that parses is any predicate.
- Request options other than headers and user agent; proxies and credentials.
- The download engine, GUI, tray, notifications, installer, updater and manifest files.
