# Verified models of the kernel's hard parts

This project models, in Dafny 4.11, the parts of the repository where state and arithmetic are hardest to get right, and proves
what they keep:

- identity, sessions, subreapers, address maps, memory counters and priorities (`kernel/sys.c`);
- file positions, ranges and copies on wrapping 64-bit words (`fs/read_write.c`);
- the tables and strings built from the boot command line (`init/main.c`);
- the registry of per-process memory limits (`kernel/usac/project3`).

`dafny verify dfyconfig.toml` checks everything.

## How the models are built

Code that changes things in place is a class or a method on arrays, with the source's branches and loops; each such method is
proved against a function or predicate on values. What holds over whole runs, what one call undoes and how two forms of a
computation relate are lemmas about those functions. What the functions themselves mean is stated beside them without their
help: which fields, numbers or characters each call leaves, and one condition per error. Machine integers are unbounded integers with every conversion written out
(`Machine.U64`, `Machine.I64`, `Machine.Low64`).

| module | what it models |
|---|---|
| `Sessions` | process groups and sessions under setpgid, setsid, fork, clone, exec and exit |
| `Subreaper` | PR_SET_CHILD_SUBREAPER and its pruned tree walk |
| `Credentials`, `CredentialLaws` | the set*id calls as transactions on credential records, and laws over runs of them |
| `AddressMap`, `AddressReach` | PR_SET_MM and PR_SET_MM_MAP, and which maps single-field calls reach |
| `SysInfo` | rescaling of memory counters in sysinfo and its 32-bit variant |
| `Priority` | setpriority and getpriority over sets of tasks |
| `Seek`, `Ranges` | seeking, rw_verify_area, sendfile |
| `CopyRange`, `CopyContents` | the checks of copy_file_range and what they mean for the bytes |
| `SegmentLoop`, `SegmentPosition` | the loop behind readv and writev, and what it does to the position |
| `FilePosition` | file position and byte counters over runs of eight calls |
| `CStrings`, `BootArgs`, `BootLine` | strings in buffers, init's argument and environment tables, the boot command lines |
| `MemoryLimits` | the four memory-limit calls |

### What is taken from outside

Each call is one atomic step in one pid and one user namespace. Capabilities, security hooks, allocation, find_vma,
access_ok and the transfer, splice and copy operations of file systems are parameters: hooks answer with any error, transfers
move at most what they are asked to. fork takes a number that no process, thread, group or session uses, copies group and
session and clears the leader flag; it passes has_child_subreaper on; exit hands children to an ancestor of the same pid
namespace. The address space of a process ends at or below 2^63, as on x86-64 (`AddressMap.DataTestExactly` says what the
size test is worth above that). A transfer that does not fail advances the position by what it moves; one that fails may
leave it anywhere. Ids keep their numbers in the user namespace, but some may have no name there.

### Where the code does not do what its text says

- `update` and `remove` of memory limits walk private lists that nothing ever fills, while documentation/Proyecto3.md:238
  describes one global list. The model follows the code: they never succeed (`MemoryLimits.UpdateAndRemoveNeverSucceed`). Beside
  it stands the registry as described, with one list and the error numbers of the code. All answers of a run are the same in
  both exactly if no permitted update or remove names a process that has been added
  (`MemoryLimits.AnswersAsDocumentedExactly`); `MemoryLimits.AddAgainRefused` is an example. The same document gives -EEXIST
  where the code returns -101.
- Arguments in front of `init=` are meant to be ignored (init/main.c:577-582), but the clearing loop stops before the last
  usable slot, so an argument left there is handed to init or makes the kernel panic for lack of room.
  `BootArgs.ArgumentsBeforeInitIgnored` and `BootArgs.InitIgnoresEarlierExactly` give the exact condition,
  `BootArgs.StaleArgument` and `BootArgs.StalePanic` an example of each.
- For files with unsigned offsets the clipping in do_sendfile raises the count instead of lowering it, exactly for positions
  from 2^63 up (`Ranges.ClipShrinksExactly`). In copy_file_range a range that reaches
  the copy step ends by end of file, or by the size limit, exactly if its position is below 2^63
  (`CopyRange.VfsCopyFileRange`); `CopyRange.EofEscaped` and `CopyRange.LimitEscaped` are copies that do not.
- readv and writev on a file without an operation for all segments: if a later segment fails after it moved the position, the
  bytes of the earlier ones are returned and the stray position is stored. f_pos moves by the result exactly if that does not
  happen (`SegmentPosition.LoopMovesExactly`, `FilePosition.OpenFile.VfsVectored`); `SegmentPosition.StrayPosition` is an
  example.
- An environment entry that already has the last usable slot is replaced in place, and yet counts as one too many
  (`BootArgs.SpuriousEnvPanic`, `BootArgs.RepeatedKeyPanics`).
- A memory limit of 2^63 bytes or more is compared as a negative number and refused (`MemoryLimits.HugeLimitRefused`).
- A security hook that answers -ESRCH lets setpriority return 0 although a task was refused
  (`Priority.EsrchHookHidesRefusal`); `Priority.ZeroTellsExactly` says when.
- No setresuid call stands in for a setreuid that copies an effective id without a name in the namespace into the saved id
  (`CredentialLaws.UnnamedSavedIdOutOfReach`, exactly `CredentialLaws.SetresuidSimulatesSetreuid`).
- setup_command_line sizes both buffers by the boot command line but also copies the line returned by setup_arch, unchecked
  (`BootLine.SetupCommandLine` says exactly when that fits).

## Model

| member | source | states |
|---|---|---|
| Sessions.Refusal | kernel/sys.c:1084-1127 | the error of a refused setpgid; it is 0 exactly when POSIX allows the move |
| Sessions.RefusalInFields | kernel/sys.c:1084-1127 | the same as one condition on the fields per error |
| Sessions.ProcessTable.FirstOfGroup | kernel/sys.c:1123-1124 | a group is found iff it has a member; any member may come first |
| Sessions.ProcessTable.Setpgid | kernel/sys.c:1073-1142 | field by field when a move is accepted and what each error means; then exactly the target's group changes, on error nothing; the invariant of groups and sessions holds after it, whichever group member is looked at |
| Sessions.ProcessTable.SetSpecialPids | kernel/sys.c:1214-1223 | session and group both become the caller's pid, nothing else changes |
| Sessions.ProcessTable.Setsid | kernel/sys.c:1225-1256 | succeeds iff the caller leads no session and no process is in a group of its number; then it leads a session and a group of that number and nothing else changes; keeps the invariant |
| Sessions.ProcessTable.PerformAll | kernel/sys.c:1073-1256 | every run of operations gives the results and leaves the table of the steps, and every process is as its history tells |
| Sessions.JoinKeepsInv | kernel/sys.c:1115-1134 | every allowed move between groups keeps groups inside sessions and numbers in agreement with live processes |
| Sessions.DetachKeepsInv | kernel/sys.c:1233-1244 | a successful setsid keeps the same invariant |
| Sessions.StepKeepsInv | kernel/sys.c:1073-1256 | every step of setpgid, setsid, fork, clone, exec and exit keeps the invariant |
| Sessions.RunKeepsInv | kernel/sys.c:1073-1256 | in every run each group lies in one session and each leader's pid is its group and session |
| Sessions.RunsFromBoot | kernel/sys.c:1073-1256 | the same for every run from the state at boot |
| Sessions.RunAsTold | kernel/sys.c:1073-1256 | in any run the group of a live process is that of the last accepted setpgid on it, its own number after a later setsid, or the one it was forked with; likewise session, leadership, parent and exec state |
| Sessions.SetsidIsolates | kernel/sys.c:1237-1244 | after a successful setsid nobody else is in the caller's new session or new group |
| Sessions.SessionChangesOnlyBySetsid | kernel/sys.c:1115-1117 | along any run a process keeps its session unless it leads a new one, and a leader never moves again |
| Subreaper.ProcessTree.PropagateHasChildSubreaper | kernel/sys.c:2276-2292 | marks and descends iff the process is unmarked and no namespace reaper |
| Subreaper.ProcessTree.WalkProcessTree | kernel/sys.c:2562-2562 | the pruned walk marks exactly what a full walk below the caller would, and restores closedness, which fails during the walk |
| Subreaper.ProcessTree.SetChildSubreaper | kernel/sys.c:2557-2563 | the caller's flag becomes the argument and nobody else's changes; on: exactly what lies below is marked besides; off: nothing else changes; the invariant holds after either |
| Subreaper.ProcessTree.PerformAll | kernel/sys.c:2557-2563 | every run of forks, prctl calls and exits keeps the invariant, and who is a subreaper is as the run tells |
| Subreaper.SubreaperAsTold | kernel/sys.c:2558-2558 | in every run a live process is a subreaper iff its last prctl said so since its fork |
| Subreaper.UnderHasChain | kernel/sys.c:2276-2292 | what counts as below a process is joined to it by a chain of parents without a namespace reaper |
| Subreaper.ChainIsUnder | kernel/sys.c:2276-2292 | and everything so joined counts |
| Subreaper.MarkKeepsProgress | kernel/sys.c:2290-2291 | marking a process moves what is still owed from it to its children |
| Subreaper.SkipKeepsProgress | kernel/sys.c:2286-2288 | skipping a marked process or a reaper leaves nothing owed behind |
| Subreaper.ProgressEnds | kernel/sys.c:2278-2285 | when nothing is owed any more the marks are those of the full walk |
| Subreaper.UnderIsFlagged | kernel/sys.c:2278-2281 | in a closed forest all descendants of a marked process inside its namespace are marked |
| Subreaper.PrctlKeepsInv | kernel/sys.c:2557-2563 | full marking closes the forest again after a process became a subreaper |
| Subreaper.ExitKeepsInv | kernel/sys.c:2278-2281 | handing orphans to an ancestor in the namespace keeps the forest closed |
| Subreaper.StepKeepsInv | kernel/sys.c:2276-2292 | fork, prctl and exit keep the invariant |
| Subreaper.RunKeepsInv | kernel/sys.c:2276-2292 | in every run each child (namespace reapers aside) of a subreaper or marked process is marked |
| Subreaper.PruningLosesNothing | kernel/sys.c:2278-2281 | in every reachable forest a skipped subtree holds nothing unmarked |
| Credentials.CredStore.PrepareCreds | kernel/sys.c:545-548 | a copy of the record with a user reference of its own, so counts match records |
| Credentials.CredStore.AbortCreds | kernel/sys.c:589-591 | dropping the copy settles the counts |
| Credentials.CredStore.CommitCreds | kernel/sys.c:587-587 | the copy is installed and the old record dropped unless somebody else holds it; counts stay settled |
| Credentials.CredStore.SetUser | kernel/sys.c:482-493 | moves the copy's reference to the user of its real uid or fails with -EAGAIN and changes nothing |
| Credentials.CredStore.Finish | kernel/sys.c:578-592 | commits, or aborts with the hook's or the ucounts error |
| Credentials.CredStore.SysSetreuid | kernel/sys.c:529-592 | all or nothing; result and new ids follow the rules; counts equal live records; the installed record's user matches its real uid |
| Credentials.CredStore.SysSetuid | kernel/sys.c:610-655 | the same for setuid; with CAP_SETUID every id that has a name ends up in all four |
| Credentials.CredStore.CheckResuid | kernel/sys.c:680-710 | which calls end before a copy is taken, and with what |
| Credentials.CredStore.SysSetresuid | kernel/sys.c:667-740 | the same as for setreuid, with the early return for calls that change nothing |
| Credentials.CredStore.SysSetfsuid | kernel/sys.c:863-897 | returns the old fsuid always and changes it only when permitted and not vetoed |
| Credentials.SetuidRule | kernel/sys.c:610-655 | exactly when setuid succeeds, which ids it then leaves, and what its errors mean |
| Credentials.SetreuidRule | kernel/sys.c:529-592 | the same for setreuid, with the rule for the saved id |
| Credentials.SetresuidRule | kernel/sys.c:667-740 | the same for setresuid, with the call that changes nothing |
| Credentials.SetfsuidRule | kernel/sys.c:863-897 | exactly when the filesystem id changes; no other id ever does |
| Credentials.UserAliveExactly | kernel/sys.c:482-493 | between calls a user struct has a reference iff a record points to it |
| CredentialLaws.StepShrinks | kernel/sys.c:529-740 | one unprivileged call brings in no id from outside |
| CredentialLaws.RunShrinks | kernel/sys.c:529-897 | over any unprivileged run the set of real, effective and saved ids only shrinks and the fsuid stays among the starting ids |
| CredentialLaws.DroppedForEver | kernel/sys.c:514-528 | once the three ids agree no unprivileged run separates them |
| CredentialLaws.AttainableExactly | kernel/sys.c:691-724 | without privilege exactly these triples can be attained, whichever ids have names: each id its old value or a starting id with a name, or the effective id copied into the saved one by way of a real id with a name |
| CredentialLaws.RunStays | kernel/sys.c:529-740 | no unprivileged run leaves that set |
| CredentialLaws.AttainableWithNames | kernel/sys.c:691-724 | if all three ids have names these are all triples over them |
| CredentialLaws.ResuidReachesExactly | kernel/sys.c:691-724 | a privileged setresuid reaches exactly the triples whose changed members have names |
| CredentialLaws.ReuidReachesExactly | kernel/sys.c:550-576 | which triples a privileged setreuid reaches |
| CredentialLaws.FsuidReachesExactly | kernel/sys.c:874-890 | a privileged setfsuid reaches exactly the ids with a name, and touches nothing else |
| CredentialLaws.SetresuidSimulatesSetreuid | kernel/sys.c:550-576 | some setresuid call leaves the three ids of a successful setreuid, unless exactly that one sets the real id, keeps the effective id, and that id differs from the saved one and has no name |
| CredentialLaws.SimulationKeepsFsuid | kernel/sys.c:691-724 | it also reaches the same fsuid if that followed the effective id |
| CredentialLaws.UnnamedSavedIdOutOfReach | kernel/sys.c:573-576 | a concrete setreuid that no setresuid reproduces, whatever its three arguments |
| CredentialLaws.SetresuidSimulatesSetuid | kernel/sys.c:627-639 | setuid(x) is setresuid(x,x,x) with privilege and setresuid(-1,x,-1) without |
| CredentialLaws.SetuidRefusesOnlyEffective | kernel/sys.c:635-637 | of the ids setresuid(-1,x,-1) takes, setuid refuses exactly an effective id that is neither real nor saved |
| CredentialLaws.SysSetregid | kernel/sys.c:372-426 | returns and leaves what setreuid does without user tracking |
| CredentialLaws.SysSetgid | kernel/sys.c:438-472 | returns and leaves what setuid does without user tracking; exactly when it succeeds and which ids it then leaves |
| CredentialLaws.SysSetresgid | kernel/sys.c:769-829 | returns and leaves what setresuid does without user tracking |
| CredentialLaws.SysSetfsgid | kernel/sys.c:907-941 | returns and leaves what setfsuid does |
| AddressMap.ValidatePrctlMapAddr | kernel/sys.c:1927-1986 | accepts exactly maps in bounds, with five ordered pairs, within the data limit, although sizes are computed on wrapping words |
| AddressMap.DataTestExactly | kernel/sys.c:1976-1979 | for addresses of any size the wrapped size test is right unless the sizes add up to 2^64 or more and what remains is within the limit |
| AddressMap.MmStruct.PrctlSetMm | kernel/sys.c:2127-2262 | option by option which address is set, iff CAP_SYS_RESOURCE is held, the new map is valid and the address is mapped where it must be; otherwise the map is unchanged, and what each error means |
| AddressMap.PrctlInWords | kernel/sys.c:2184-2255 | the same about the error of the call alone, option by option |
| AddressMap.MmStruct.PrctlSetMmMap | kernel/sys.c:1989-2094 | installs the whole map iff size and map are valid and nothing else objects |
| AddressMap.AcceptedEndsValid | kernel/sys.c:2222-2224 | after any accepted calls the map is valid, whatever it was before |
| AddressMap.MovePairAccepted | kernel/sys.c:1964-1968 | the order chosen by MovePair gets every pair from one valid place to another |
| AddressMap.PlanWorks | kernel/sys.c:2184-2255 | each stage of the plan is accepted and leaves a valid map |
| AddressMap.ElevenCallsReachAnyMap | kernel/sys.c:2184-2255 | without a data limit eleven accepted single-field calls lead from any valid map to any other, like one PR_SET_MM_MAP |
| AddressReach.Slide | kernel/sys.c:1976-1979 | under any positive data limit an empty data or heap pair gets to every address in bounds |
| AddressReach.MoveData | kernel/sys.c:1976-1979 | under any positive data limit both limited pairs get from any valid place to any other |
| AddressReach.ZeroLimitFreezes | kernel/sys.c:1976-1979 | under a limit of zero no accepted calls ever change data or heap addresses |
| AddressReach.ReachableExactly | kernel/sys.c:2184-2255 | for every limit single-field calls lead from one valid map to another iff the limit is positive or data and heap stay where they are |
| AddressMap.FixedOrderFails | kernel/sys.c:1964-1964 | a pair that moves up past its end cannot be moved start first |
| SysInfo.DoSysinfo | kernel/sys.c:2775-2804 | the shift-and-compare loop scales to bytes iff RAM plus swap in bytes fit in a word, and otherwise changes nothing |
| SysInfo.CompatRescale | kernel/sys.c:2850-2866 | scales to pages exactly when a total exceeds 32 bits |
| SysInfo.ScalingPreservesBytes | kernel/sys.c:2789-2804 | every counter times its unit is preserved; bytes are used iff they fit |
| SysInfo.CompatLosesLessThanAUnit | kernel/sys.c:2845-2866 | scaling up and down again loses less than one new unit per counter |
| SysInfo.PagesRoundTrip | kernel/sys.c:2845-2866 | counters that start in pages come back exactly |
| SysInfo.CompatFieldsFit | kernel/sys.c:2873-2881 | the 32-bit fields truncate nothing iff RAM and swap are below 2^32 pages |
| SysInfo.HalvedTimes | kernel/sys.c:2858-2865 | shifting right undoes shifting left, and shifting back loses less than one unit |
| Priority.Scheduler.SetOnePrio | kernel/sys.c:194-216 | the error carried on and the one task changed |
| Priority.Scheduler.SetEach | kernel/sys.c:253-271 | the walk folds errors in order and renices exactly the permitted matches |
| Priority.Scheduler.SetProcess | kernel/sys.c:239-246 | one task by pid is the same fold |
| Priority.Scheduler.SetPriority | kernel/sys.c:218-280 | for all three selections: the folded error, exactly the permitted matches at the clamped value, user references balanced |
| Priority.Scheduler.GetPriority | kernel/sys.c:288-351 | 20 minus the lowest nice value among the matches, -ESRCH iff there are none; user references balanced |
| Priority.Scheduler.MaxEach | kernel/sys.c:319-342 | the maximum over the matches |
| Priority.SelectedInFields | kernel/sys.c:239-271 | which tasks each selection means |
| Priority.RenicedInFields | kernel/sys.c:194-216 | field by field which tasks get the value clamped to -20..19, and what each refusal means |
| Priority.FoldValue | kernel/sys.c:194-216 | the returned error is that of the last refusal, except that -ESRCH is forgotten when a task succeeds after it |
| Priority.ZeroMeansAllTaken | kernel/sys.c:218-280 | setpriority returns 0 iff some task matched and all matches took the value (no hook answering -ESRCH) |
| Priority.ZeroTellsExactly | kernel/sys.c:218-280 | for all hooks, 0 means exactly that unless the last refusal is -ESRCH and another match follows it |
| Priority.EsrchHookHidesRefusal | kernel/sys.c:206-212 | a hook answering -ESRCH breaks that |
| Priority.SetThenGet | kernel/sys.c:282-351 | after a setpriority that returned 0, getpriority gives 20 minus the clamped value iff no refused match had a lower nice value |
| Seek.File.VfsSetpos | fs/read_write.c:54-66 | moves iff the offset is in range, and resets the version only when it moves |
| Seek.File.GenericFileLlseekSize | fs/read_write.c:85-131 | the result on 64-bit words, for signed and unsigned offsets |
| Seek.File.GenericFileLlseek | fs/read_write.c:144-151 | on signed offsets, whence by whence, the mathematical target or the right error, and a position inside the file |
| Seek.File.DefaultLlseek | fs/read_write.c:230-282 | the result without an upper bound, whence by whence |
| Seek.WordResultIsExact | fs/read_write.c:89-130 | wrap-around never shows on signed offsets |
| Seek.UnsignedSeekInNumbers | fs/read_write.c:89-130 | on unsigned offsets the sum modulo 2^64, or -EINVAL above the bound |
| Seek.File.SeekAll | fs/read_write.c:85-131 | every run of seeks gives the results and the position of the run on integers |
| Seek.RunsAreExact | fs/read_write.c:85-131 | over every run on signed offsets all results and the final position, computed on wrapping words, are those on integers, and the position never leaves 0..maxsize |
| Seek.DefaultAgreesExactly | fs/read_write.c:247-269 | the two implementations agree except exactly on negative offsets for data or holes |
| Seek.DefaultFindsHoleBeforeStart | fs/read_write.c:258-269 | there default_llseek moves to the end of the file |
| Ranges.RwVerifyArea | fs/read_write.c:355-376 | the wrapped tests accept exactly the ranges that exist, for signed and unsigned offsets |
| Ranges.ClippedIsExact | fs/read_write.c:1230-1235 | for positions from 0 up, clipping leaves the part below the limit |
| Ranges.ClipShrinksExactly | fs/read_write.c:1230-1235 | clipping never raises the count iff the position is not negative |
| Ranges.PassedRangeFits | fs/read_write.c:1228-1235 | on signed offsets what passes the checks starts from 0 up, is as long as asked for where that fits, and ends by the limit |
| Ranges.SendfileInNumbers | fs/read_write.c:1194-1252 | on signed offsets exactly when something is sent, how much, and what each error means |
| Ranges.SendfileChecks | fs/read_write.c:1194-1252 | the exact error and the exact clipped count, for all kinds of targets, offsets and hooks |
| Ranges.DoSendfile | fs/read_write.c:1180-1287 | the exact result for signed and unsigned offsets; positions move by exactly the result, also when both ends are one file; never past max, and no overflow report after the transfer, on signed offsets |
| CopyRange.GenericWriteCheckLimits | fs/read_write.c:1629-1652 | fails iff the position is beyond the limit of the file system, of files without O_LARGEFILE or of the process; otherwise the largest count within all three |
| CopyRange.RangeChecks | fs/read_write.c:1445-1467 | the exact verdict and length on wrapping words for any positions; on integers for positions from 0 up; ranges that do not wrap and are disjoint in one inode in any case |
| CopyRange.ShortenCopy | fs/read_write.c:1445-1458 | the exact error and count for any positions; the count ends by end of file and by the limit on a side whose position is from 0 up |
| CopyRange.OverlapTestIsExact | fs/read_write.c:1460-1464 | the test on wrapping sums finds exactly the overlapping ranges |
| CopyRange.WordsAreExact | fs/read_write.c:1445-1467 | for positions from 0 up verdict and length on words are those on integers |
| CopyRange.GenericCopyFileChecks | fs/read_write.c:1404-1468 | which files are refused, one condition per error; the exact shortened length for any positions, and on integers from 0 up |
| CopyRange.VfsCopyFileRange | fs/read_write.c:1475-1501 | the exact result for all positions, kinds of offsets and hooks, and when the copy step is reached with which length; only between files of the right kinds, modes and owners; there the length only shrank, both ranges exist and are disjoint in one inode, and each ends by end of file or size limit iff its position is below 2^63 |
| CopyRange.CopyGranted | fs/read_write.c:1404-1501 | between such files a copy from positions 0 up is granted iff no sum reaches 2^64, the target is below its limits and in one inode the ranges are apart; then it is what lies before end of file and below the limits |
| CopyRange.CopiesExactly | fs/read_write.c:1485-1499 | with silent hooks nothing objects iff the words pass and both ranges exist |
| CopyRange.EofEscaped | fs/read_write.c:1450-1454 | from a position above 2^63 more bytes are copied than the file has |
| CopyRange.LimitEscaped | fs/read_write.c:1629-1652 | to a position above 2^63 bytes are copied beyond the size limit |
| CopyContents.SourceKept | fs/read_write.c:1460-1464 | the copy never disturbs bytes it has yet to read |
| CopyContents.PieceKeepsSnapshot | fs/read_write.c:1460-1464 | a piece read from the live file is as good as one read from a snapshot |
| CopyContents.PiecesDoNotMatter | fs/read_write.c:1470-1474 | copying a prefix in any pieces and order equals one write of the old source bytes |
| CopyContents.CopyInPieces | fs/read_write.c:1503-1539 | every sequence of pieces gives the snapshot copy |
| CopyContents.CheckedByTheCall | fs/read_write.c:1485-1499 | what reaches the copy step satisfies the conditions for that |
| CopyContents.OverlapWouldMatter | fs/read_write.c:1460-1464 | without the overlap check two pieces and one piece differ |
| SegmentLoop.LoopOverSegments | fs/read_write.c:751-773 | the loop is its rounds, each using up a segment |
| SegmentLoop.DoLoopReadvWritev | fs/read_write.c:743-774 | for every transfer the result is the number of bytes moved, or the last error if none was; for composable ones it returns, moves and leaves the position exactly as one transfer over the concatenation |
| SegmentLoop.RoundsAreOneTransfer | fs/read_write.c:751-771 | the same by induction over any segments, empty ones included |
| SegmentLoop.RoundsCount | fs/read_write.c:762-768 | whatever transfers do, an error is returned only if not a byte was moved, and otherwise exactly the bytes moved |
| SegmentLoop.ReadsCompose | fs/read_write.c:751-771 | reading a medium with a fault at its end is such a transfer |
| SegmentLoop.WritesCompose | fs/read_write.c:757-760 | so is writing to a medium with limited room and a fault at its end |
| SegmentPosition.RoundsMove | fs/read_write.c:751-771 | the rounds advance the position by what they moved, up to what a failing last transfer does to it |
| SegmentPosition.LoopMovesExactly | fs/read_write.c:751-771 | the loop advances the position by exactly the bytes it moved iff no last transfer failed and moved the position |
| SegmentPosition.StrayPosition | fs/read_write.c:762-766 | two segments after which one byte is returned and the position is the failed one's |
| FilePosition.OpenFile.VfsTransfer | fs/read_write.c:450-594 | the exact result; on success the position advances by it without wrapping; the right counter grows by it |
| FilePosition.OpenFile.VfsVectored | fs/read_write.c:776-938 | the exact result, by one operation or by the segment loop, and the position it leaves; that is the old one plus the result iff no last segment failed and moved it |
| FilePosition.OpenFile.IterTransfer | fs/read_write.c:720-740 | one operation on all segments: flags first, then result and position |
| FilePosition.OpenFile.TransferInNumbers | fs/read_write.c:450-594 | what a read or write takes to be served, how much it then moves, and what each error means |
| FilePosition.OpenFile.VectoredInNumbers | fs/read_write.c:776-938 | the same for vectored ones |
| FilePosition.OpenFile.SysReadWrite | fs/read_write.c:602-644 | f_pos moves by a positive result and by nothing else |
| FilePosition.OpenFile.SysVectored | fs/read_write.c:940-986 | the same for readv and writev, iff no last segment failed and moved the position |
| FilePosition.OpenFile.SysPositioned | fs/read_write.c:652-704 | pread and pwrite leave f_pos alone and are charged alike |
| FilePosition.OpenFile.SysPositionedVectored | fs/read_write.c:994-1038 | the same for preadv and pwritev |
| FilePosition.OpenFile.Run | fs/read_write.c:602-1038 | over any run the results and f_pos of the calls one by one; the counters move by the sums of bytes moved; f_pos by exactly the sum of the results of the implicit calls unless one strays |
| FilePosition.OpenFile.PositionTallies | fs/read_write.c:602-1038 | the sum over any run in which no vectored call strays |
| CStrings.RepairEnvString | init/main.c:488-500 | in place, key and value become key=value, plain or quoted, nothing outside changes; any other layout is a bug |
| CStrings.Joined | init/main.c:490-497 | key, '=' and a value moved down by the quote are one string |
| BootArgs.BootTables.constructor | init/main.c:188-190 | the tables at start |
| BootArgs.BootTables.SetInitArg | init/main.c:503-522 | the first free slot up to the limit gets the argument, or panic_later is set and nothing changes |
| BootArgs.BootTables.UnknownBootoption | init/main.c:528-570 | which table changes and how; the last slots are NULL unless panic_later is set |
| BootArgs.BootTables.AddEnv | init/main.c:546-557 | the first slot that is free or has the key gets key=value, and no other slot changes; that is a map update; panic_later is set iff the slot is neither below the limit nor a free one at it |
| BootArgs.SpuriousEnvPanic | init/main.c:546-557 | it is set although all entries fit iff the key already has the slot at the limit |
| BootArgs.RepeatedKeyPanics | init/main.c:546-557 | a line that repeats a key and panics for that |
| BootArgs.BootTables.AddArg | init/main.c:558-568 | the first free slot gets the argument, and panic_later is set iff it lies behind the limit |
| BootArgs.BootTables.InitSetup | init/main.c:572-586 | keeps "init" and the last usable slot, clears the rest |
| BootArgs.BootTables.RdinitSetup | init/main.c:589-598 | the same for rdinit= |
| BootArgs.BootTables.ParseAll | init/main.c:488-598 | for every sequence of options all writes stay in the tables; panic_later is set iff some option found its table full; otherwise the tables are what the options mean; the commands are those of the last init= and rdinit= |
| BootArgs.OptionInWords | init/main.c:503-598 | what one option does to either table, kind by kind |
| BootArgs.BootTables.HandedIsTable | init/main.c:188-190 | what init is handed is what stands in the table up to the first NULL |
| BootArgs.OverrunCounts | init/main.c:546-568 | an option that overruns in the state its predecessors leave makes the line overrun |
| BootArgs.OverrunHappens | init/main.c:546-568 | a line overruns only if one of its options does |
| BootArgs.SetThenLookup | init/main.c:549-557 | setting a key changes the value of that key and of no other |
| BootArgs.SetKeepsUnique | init/main.c:549-557 | no key is ever stored twice |
| BootArgs.LastValueWins | init/main.c:546-557 | the environment gives each key its last value |
| BootArgs.KeysStayUnique | init/main.c:546-557 | keys stay unique over any run |
| BootArgs.BootEnvironmentIsAMap | init/main.c:189-189 | starting from HOME and TERM |
| BootArgs.EntriesKeepTheirOrder | init/main.c:549-557 | over any options entries keep their places, and new keys follow in the order of their first option |
| BootArgs.ArgumentsBeforeInitIgnored | init/main.c:577-585 | what init is handed, panic included, does not depend on arguments in front of init= iff the last usable slot was free, fewer arguments follow than slots were cleared, or more than fit at all |
| BootArgs.OptionsAppend | init/main.c:503-570 | options without init= append their texts, and overrun iff appending does |
| BootArgs.InitThenOptions | init/main.c:572-598 | the options behind init= start from the cleared table |
| BootArgs.InitIgnoresEarlierExactly | init/main.c:577-585 | the same condition for a command line with any options behind init=, the environment included |
| BootArgs.StaleArgument | init/main.c:583-584 | a line whose argument from before init= is handed to init |
| BootArgs.StalePanic | init/main.c:583-584 | a line that panics although it would not without the arguments before init= |
| BootArgs.BootTables.PrintUnknownBootoptions | init/main.c:826-867 | prints exactly the arguments and environment entries init receives, each after a space, unless the allocation fails |
| BootArgs.CountFrom | init/main.c:840-848 | counts the characters of one table's entries |
| BootArgs.PrintFrom | init/main.c:858-861 | prints one table's entries behind what is there |
| BootArgs.PrintBoth | init/main.c:840-861 | the second pass fills what the first counted, to the last character |
| BootArgs.ListingConcat | init/main.c:858-861 | the listing of two lists in a row, and of one entry behind its space |
| BootLine.XbcSnprintCmdline | init/main.c:322-354 | for every size the return value is the full length and the buffer holds what fits and a NUL; the first bad key's error otherwise |
| BootLine.RenderOne | init/main.c:333-350 | a key without a value stands alone, every value repeats its key in quotes, a space ends each |
| BootLine.RenderAppend | init/main.c:333-350 | one more key is one more piece at the end |
| BootLine.XbcMakeCmdline | init/main.c:358-387 | both passes agree, nothing is truncated, and the line is the configuration's text |
| BootLine.SetupCommandLine | init/main.c:613-667 | every copy fits iff the line to be parsed is no longer than the boot line; then the saved line is extra options, boot line and init arguments spliced where they belong |
| BootLine.SpliceInit | init/main.c:652-663 | both ways of adding the init arguments |
| MemoryLimits.Registry.AddMemoryLimit | kernel/usac/project3/202000173_add_memory_limit.c:36-85 | when it succeeds and what each refusal means; on success one entry at the head; every path gives back its reference |
| MemoryLimits.Registry.GetMemoryLimits | kernel/usac/project3/202000173_get_memory_limits.c:23-59 | the first min(max_entries, n) entries and their number |
| MemoryLimits.Registry.UpdateMemoryLimit | kernel/usac/project3/202000173_update_memory_limit.c:14-38 | overwrites the first match of its private list |
| MemoryLimits.Registry.RemoveMemoryLimit | kernel/usac/project3/202000173_remove_memory_limit.c:14-39 | unlinks the first match of its private list |
| MemoryLimits.RunKeepsInv | kernel/usac/project3/202000173_add_memory_limit.c:41-81 | in every run distinct positive pids with positive limits, and empty private lists |
| MemoryLimits.OnlyAddsShow | kernel/usac/project3/202000173_get_memory_limits.c:20-50 | only add changes what get reports |
| MemoryLimits.UpdateAndRemoveNeverSucceed | kernel/usac/project3/202000173_update_memory_limit.c:14-37 | in no run do update and remove find anything |
| MemoryLimits.Registry.Serve | kernel/usac/project3/202000173_get_memory_limits.c:20-59 | every run of calls gives the answers and leaves the lists of the step functions, with references balanced |
| MemoryLimits.ListsStayEqual | documentation/Proyecto3.md:238-238 | the documented list and the shared list are equal as long as no call is lost |
| MemoryLimits.DocumentedEffects | documentation/Proyecto3.md:225-281 | the documented update and remove change the entry of their process and nothing else |
| MemoryLimits.AnswersAsDocumentedExactly | documentation/Proyecto3.md:238-238 | all answers of a run, results and reported entries, are those of one global list iff no permitted update or remove names an added process |
| MemoryLimits.AddAgainRefused | kernel/usac/project3/202000173_remove_memory_limit.c:14-38 | add, remove, add: refused as written, granted as documented |
| MemoryLimits.HugeLimitRefused | kernel/usac/project3/202000173_add_memory_limit.c:56-60 | the usage test refuses exactly limits below the usage and limits from 2^63 up |

## Left out

- modules/project1, modules/project2, kernel/usac/project1 and kernel/usac/project2: reports and unit conversions that keep no state from call to call.
- The rest of prctl, uname, rlimit, times and rusage calls in kernel/sys.c: single-branch getters and setters.
- Auxiliary vector and executable file in PR_SET_MM: only their results appear.
- start_kernel, initcalls and tracing in init/main.c: ordered calls into code not shown.
- Locks, RCU, memory ordering, and pid and user namespaces beyond one: each call is one atomic step.
- Descriptor lookup, failing copies to and from user space, and the syscr/syscw call counters.
- Files opened for appending, whose position a write moves to the end of the file first.
- Aliasing of strings: the tables of `BootArgs` hold strings as values, not pointers into the command line buffer.
- Linked nodes: the lists of `MemoryLimits` are sequences, head first.
- Boot allocations whose failure panics are taken to succeed.
- flag_nproc_exceeded, and the return values of getresuid and setfsuid translated into the namespace: kernel ids are reported as they are.
- The copy_file_range system call around vfs_copy_file_range (two position updates), and generic_write_checks for iterators.
- CredentialLaws.SysSetregid: the gid calls work on the four ids as values; the record that carries them is modelled with the uid calls.
