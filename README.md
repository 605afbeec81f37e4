# tsh job control, modelled in Dafny

tsh is a small Unix shell with job control. This project models the parts
of `tsh.c` that decide what the shell does:

- **The job list** (module `JobTable`). It holds `MAXJOBS` = 16 slots and the
  counter `nextjid`. `Table` is the value view of the list, with the effects
  of `addjob` (`Table.Add`) and `deletejob` (`Table.Delete`) stated as
  functions. `JobList` is the mutable list the shell keeps: an `array<Job>`
  and the counter. Its methods are `clearjob`, `initjobs`, `maxjid`,
  `addjob`, `deletejob`, `fgpid`, `getjobpid`, `getjobjid` and `pid2jid`.
  `AddJob` and `DeleteJob` are loops over the slots proved to have exactly
  the effect of `Table.Add` and `Table.Delete`. `ClearJob` updates one slot
  with no loop, and `InitJobs` is a loop proved to leave every slot cleared
  (`AllCleared`). `MaxJid`, `FgPid`, `GetJobPid`, `GetJobJid` and `Pid2Jid`
  change nothing; their loops are proved to return `MaxJidOf` or the result
  of the `FirstMatch` scan of the slots.
- **Job-state transitions** (module `JobControl`). `Reap` is one step of
  the `sigchld_handler` loop: the reaped child's job is marked ST, then
  deleted unless the child stopped, and the exit flag is set. `BgFg` is the
  decision logic of the `fg`/`bg` built-in (`do_bgfg`). `SigchldStep` and
  `DoBgFg` perform these steps on a `JobList`. How waitpid reported the
  child and the already-parsed selector (`%jid` or a pid) are inputs.
- **The tokenizer `parseline`** (module `CommandLine`). `Tokens` is the
  specification: a scan over the line, whose last character is replaced by
  a space. From each position spaces are skipped. An argument then runs to
  the next space; if it starts with a single quote, it is the text up to
  the next quote. An argument with no closing delimiter ends the scan.
  `ParseLine` allocates the NUL-terminated buffer. `SplitArgs` walks the
  buffer, writing NUL over each delimiter, and is proved to produce
  `Tokens`. The meaning of `Tokens` is pinned down by a round trip: for
  words a user types (bare words and quoted texts, separated by spaces),
  `ParseUnparse` proves the arguments are exactly the words' texts.

Job IDs are not unique. tsh.c:55 documents a jid as one of `[1, 2, ...]`,
and one would expect live jids to be distinct, but the code does not keep
that. When `nextjid` passes `MAXJOBS` it wraps to 1 (tsh.c:674-675) while a
job with jid 1 may still be live.
The model follows the code, and `JobTable.WrapCanDuplicateJid` shows the
duplicate.

## Model

| member | source | states |
|---|---|---|
| JobTable.FirstMatch | tsh.c:720-760 | the linear scan every lookup performs: the index of the first slot matching the key, with no match before it, or the table size when no slot matches |
| JobTable.MaxJidOf | tsh.c:649-658 | the value maxjid computes: at least 0, no slot's jid exceeds it, and it is 0 or some slot's jid |
| JobTable.Table.Add | tsh.c:661-686 | addjob fails iff pid < 1 or no slot is free, and then nothing changes; on success the first free slot gets the job with the old counter as jid, every other slot is kept, the counter advances and wraps to 1 past MAXJOBS; well-formedness is kept |
| JobTable.Table.Delete | tsh.c:689-705 | deletejob fails iff pid < 1 or no slot holds the pid, and then nothing changes; on success the first slot holding it is cleared, every other slot is kept, and the counter becomes maxjid + 1 of the new slots; well-formedness is kept |
| JobTable.ClearedTableQueries | tsh.c:639-658 | on slots that are all cleared, maxjid is 0, no slot is in FG (fgpid gives 0), and the first free slot is slot 0 |
| JobTable.AddedJobIsFound | tsh.c:661-686 | after adding a job for a fresh pid, getjobpid's scan finds it in the slot that was first free, with the old counter as its jid |
| JobTable.AddThenDelete | tsh.c:661-705 | deletejob undoes addjob for a fresh pid: all slots are restored and the counter is maxjid + 1 |
| JobTable.DeleteThenAddAllocatesAboveMax | tsh.c:673-700 | after a deletion, the next job added gets jid maxjid + 1, which is above every other jid in the list |
| JobTable.WrapCanDuplicateJid | tsh.c:673-675 | with the counter at MAXJOBS or more, jid 1 live and two free slots, two additions succeed and leave two slots with jid 1 |
| JobTable.AddKeepsOneFg | tsh.c:35-43 | at most one job in FG survives addjob when a FG job is only added while no job is in FG |
| JobTable.DeleteKeepsOneFg | tsh.c:35-43 | at most one job in FG survives deletejob |
| JobTable.JobList.constructor | tsh.c:49-59 | the list at program start: sixteen cleared slots and nextjid = 1 |
| JobTable.JobList.ClearJob | tsh.c:629-636 | clearjob: exactly slot i becomes pid 0, jid 0, UNDEF, empty command line |
| JobTable.JobList.InitJobs | tsh.c:639-646 | initjobs: every slot is cleared and the counter is unchanged |
| JobTable.JobList.MaxJid | tsh.c:649-658 | maxjid returns MaxJidOf of the slots |
| JobTable.JobList.AddJob | tsh.c:661-686 | addjob's new list and result are exactly Table.Add of the old list |
| JobTable.JobList.DeleteJob | tsh.c:689-705 | deletejob's new list and result are exactly Table.Delete of the old list |
| JobTable.JobList.FgPid | tsh.c:708-717 | fgpid returns the pid of the first slot in FG, 0 when there is none |
| JobTable.JobList.GetJobPid | tsh.c:720-731 | getjobpid returns the first slot holding the pid, NULL for a pid below 1 or absent |
| JobTable.JobList.GetJobJid | tsh.c:734-745 | getjobjid returns the first slot holding the jid, NULL for a jid below 1 or absent |
| JobTable.JobList.Pid2Jid | tsh.c:748-760 | pid2jid returns the jid of the first slot holding the pid, 0 for a pid below 1 or absent |
| JobControl.Reap | tsh.c:549-569 | one reaping step: only the child's slot changes; a stopped child's job is kept in state ST with flag TSTP; a child killed by SIGINT or otherwise ended has its slot cleared, the counter reset to maxjid + 1, and flag INTR or EXIT |
| JobControl.ReapRemovesTerminated | tsh.c:549-569 | when pids are distinct, a terminated child's pid is in no slot after reaping |
| JobControl.ReapKeepsOneFg | tsh.c:549-569 | reaping keeps at most one job in FG |
| JobControl.SigchldStep | tsh.c:549-569 | the handler's first loop iteration on the job list has exactly the effect and flag of Reap |
| JobControl.BgFg | tsh.c:376-470 | do_bgfg as written: each error case holds iff its condition holds (missing argument; %jid above maxjid; pid below 1 or held by no job; pid form and job already in FG); errors change nothing; otherwise the selected job's state becomes FG or BG and nothing else changes |
| JobControl.DoBgFg | tsh.c:376-470 | do_bgfg on the job list has exactly the effect and outcome of BgFg |
| JobControl.BgFgChecked | tsh.c:392-404 | the corrected do_bgfg: a %jid resumes a job iff some job holds that jid, which is at least 1, and otherwise reports "No such job" and changes nothing; it agrees with BgFg wherever BgFg is defined |
| JobControl.JidGuardAdmitsAbsentJob | tsh.c:392-404 | once a job whose jid is below another live jid is deleted, its jid passes the maxjid guard yet no slot holds it, so do_bgfg as written would dereference NULL |
| JobControl.BgFgKeepsOneFg | tsh.c:35-43 | fg/bg keep at most one job in FG when fg is only run while no job is in FG |
| JobControl.FgBesideForegroundMakesTwoFg | tsh.c:392-446 | `fg %jid` for a job other than the one in FG succeeds and leaves two jobs in FG |
| CommandLine.SkipSpaces | tsh.c:320-321 | skipping from a position passes only spaces and stops at the end of the line or at a character that is not a space |
| CommandLine.IndexOf | tsh.c:325-327 | strchr's position: no c lies between the start and the result, and the result is the end of the line or holds c |
| CommandLine.Tokens | tsh.c:304-329 | the arguments the loop collects from a position; each one uses up at least its delimiter, so there are no more of them than characters left |
| CommandLine.ScanBare | tsh.c:323-327 | a step at a character that is not a quote, with the first space n characters on, finds the argument from there up to that space |
| CommandLine.ScanQuoted | tsh.c:323-325 | a step at a quote, with the next quote n + 1 characters on, finds the argument between the two quotes |
| CommandLine.Line | tsh.c:302-303 | the working copy has the length of the command line, ends in a space, and agrees with it everywhere before that |
| CommandLine.NextToken | tsh.c:320-328 | a scan step that finds an argument finds it at or after its start, with its delimiter inside the line |
| CommandLine.ParseLine | tsh.c:293-340 | parseline: with no argument, argv is empty and the result is true; otherwise the result says whether the last argument begins with '&', and argv holds the arguments of Tokens in order, without that last one when it does |
| CommandLine.SplitArgs | tsh.c:304-330 | the argument loop over the buffer collects exactly Tokens of the line |
| CommandLine.ScanArg | tsh.c:320-328 | one step over the buffer finds a delimiter iff NextToken finds an argument, and then the same start and delimiter |
| CommandLine.SkipBlanks | tsh.c:320-321 | skipping spaces over the buffer stops where SkipSpaces does |
| CommandLine.Strchr | tsh.c:325-327 | strchr over the NUL-terminated buffer returns the position of the first c, or NULL when the line has none after the start |
| CommandLine.IndexOfAt | tsh.c:325-327 | IndexOf is the position of the first c at or after the start |
| CommandLine.IndexOfNone | tsh.c:325-327 | with no c at or after the start, IndexOf reaches the end of the line |
| CommandLine.SkipSpacesAll | tsh.c:304-305 | with only spaces from the start on, skipping reaches the end of the line |
| CommandLine.SpaceIsSkipped | tsh.c:319-321 | the arguments scanned from a space are those scanned from just after it |
| CommandLine.ScanUnclosed | tsh.c:323-329 | an opening quote that nothing closes ends the scan with no further argument |
| CommandLine.TokensOfWord | tsh.c:316-329 | a bare word or a quoted text followed by a space yields its text, and the scan resumes after the space |
| CommandLine.TokensOfSpaced | tsh.c:316-329 | space-separated words held in the line yield their texts in order, followed by what is scanned after them |
| CommandLine.Unparse | tsh.c:302-303 | the command line typed for some words has a working copy that is exactly the words, each followed by a space |
| CommandLine.ParseUnparse | tsh.c:293-340 | parseline recovers the words' texts, in order, from the line a user typed for them |
| CommandLine.BlankLineHasNoTokens | tsh.c:302-333 | a line of spaces has no argument, so parseline returns an empty argv and true |
| CommandLine.UnterminatedQuoteIsDropped | tsh.c:316-329 | after some typed words, a quote with no closing quote contributes no argument: the arguments are just the words' texts |

## Left out

- Signals and masks: installing handlers, `sigprocmask` windows and handler re-entrancy are concurrency that the model does not capture. The handler returns at tsh.c:557, 563 and 569 without restoring errno or the mask, and the model claims no such restoration.
- `fork`, `setpgid`, `execvp`, `waitpid` and `kill` are operating-system calls. Only their outcomes enter, as the pid and `ChildStatus` given to `Reap`. The signals `do_bgfg` sends are not modelled.
- The reaping loop: tsh.c returns after the first reaped child, so the model has one step and no loop.
- `waitfg`, which polls with `sleep`, and the SIGINT/SIGTSTP/SIGQUIT relay handlers: they wait on state that changes asynchronously.
- Output: `printf`/`fprintf` messages, `listjobs`, `usage`, `unix_error`, `app_error` and the `verbose` trace. The four error messages of `do_bgfg` become `Outcome` values.
- `main` (option parsing, the read loop, the stderr redirection): I/O plumbing.
- `eval` (tsh.c:200-284) is outside the modelled core. It is the launch sequence: it blocks SIGCHLD, forks, puts the child in its own process group with `setpgid` and runs `execvp` there, adds the job in the parent and unblocks SIGCHLD, then waits with `waitfg` for a foreground job or prints the background job. Its use of `addjob` enters only as the precondition of `AddKeepsOneFg`.
- `builtin_cmd` dispatch: prefix `strncmp` tests. Its fg/bg test combines two results with bitwise `&`, so the outcome depends on unspecified return values. `Command` is given. The model does not cover the fall-through this allows: when argv[0] starts with neither "fg" nor "bg", do_bgfg runs its selector checks and then changes nothing, since tsh.c:440-467 has no final `else`.
- `strtol` and `errno` in `do_bgfg`: the selector arrives parsed. The "argument must be a PID or %jobid" error, which depends on `errno`, is not modelled.
- Integer width: pids, jids and the counter are unbounded integers. The counter grows by at most one per added job, so the 32-bit wrap of `int` would take about two billion jobs; the model does not capture it. MAXJID is defined in tsh.c but never used.
- The fixed bounds MAXARGS (128 arguments) and MAXLINE (1024 characters): overrunning `argv`, the static copy in `parseline` or a job's `cmdline` is undefined behaviour in C. The model has no bound.
- CommandLine.ParseLine: requires a non-empty command line without NUL characters. strlen of an empty string minus 1 writes outside the buffer, and a NUL would end the C string early.
- JobControl.Reap: requires the pid to be in the list, as tsh.c:551 dereferences getjobpid's result without a NULL test.
- JobControl.BgFg: requires a `%jid` that passes the maxjid guard to name a job, as tsh.c:404 dereferences getjobjid's result without a NULL test. The finding below gives the total version.
- Distinct live jids are not stated as an invariant, because the wrap at tsh.c:674-675 breaks them (see `JobTable.WrapCanDuplicateJid`).

## Findings

| source | as written | input that shows it | evidently intended | confidence | as-written member | corrected member |
|---|---|---|---|---|---|---|
| tsh.c:399-404 | a `%jid` is rejected only when it exceeds maxjid, and the job getjobjid returns is then dereferenced | jobs with jids 1, 2 and 3 are running, the job with jid 2 exits, then `fg %2` (likewise `fg %0`): getjobjid returns NULL and `myjob->pid` dereferences it | report "No such job" for every jid that no job holds | not executed | JobControl.JidGuardAdmitsAbsentJob | JobControl.BgFgChecked |
