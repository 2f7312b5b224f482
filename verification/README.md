# Verified models of a Linux 6.8 kernel tree with memory-limit system calls

The repository is a Linux 6.8 source tree to which a set of memory-limit system calls was added
(`kernel/proyecto3`, `kernel/usac`). This project models its stateful core in Dafny and proves properties
of it over all inputs, all runs and all reachable states. `dafny verify dfyconfig.toml` checks everything.

| module | what it models |
|---|---|
| `VmaLock` | the per-VMA lock protocol, as interleaved atomic steps of any number of threads |
| `JobControl` | process groups and sessions: setpgid and setsid among forks, execs and exits |
| `Credentials` | the set*uid and set*gid calls |
| `LimitList` | the memory-limit registry as a linked list of heap nodes under a mutex |
| `RingList` | the doubly linked kernel list of the registry on the heap, with every access checked against what is allocated |
| `LimitRlimit` | the registry that mirrors its limits into RLIMIT_AS, with do_prlimit, as runs of whole calls |
| `RlimitStores` | the same two writers as interleaved single stores under their different locks |
| `MmLayout` | prctl(PR_SET_MM) and the data-size limit, in wrapping machine arithmetic |
| `OpenCounts` | reference and writer counts along do_dentry_open, dentry_open and vfs_truncate |
| `OpenRuns` | the same counts over all interleavings of the single steps of opens, closes and truncations |
| `OpenFlags` | normalisation of open flags |
| `AccessCreds` | the temporary credentials of access() |
| `CopyRange` | the checks of copy_file_range in 64-bit arithmetic |
| `Llseek` | file positions in 64-bit arithmetic |
| `VectoredIo` | the by-hand readv/writev loop against one big transfer |
| `BootTables` | init's argument and environment tables and the notice about unknown options |
| `BootCmdline` | bootconfig printing in two passes and the saved command line |
| `Sysinfo` | the scaling of memory figures and its overflow test |
| `Priority` | setpriority and getpriority over lists of tasks |

`Errno`, `MachineInt`, `Options` and `CString` hold error numbers, 64-bit conversions, optional values and string
copies. State that the source changes in place
is a class, loops are loops, and calls into code outside these files (security hooks, capability checks,
allocation, copies to user space, driver callbacks) are parameters whose every answer is covered.

## Where the code falls short

Each of these is proved together with the exact condition under which the code does what it is meant to do.

- The comment at `include/linux/mm.h:666-671` accepts that overflow of the sequence number gives a false "locked"
  result. For a reader that only costs a retry, but a writer that gets it skips its wait: with `m` distinct
  numbers, after `m - 1` releases of the mmap lock it changes flags under a reader that is still inside. Up to
  `m - 2` releases all runs are safe (`VmaLock.SafeExactlyWithoutWrap`).
- copy_file_range bounds a copy by the output's s_maxbytes only if the output was opened with O_LARGEFILE or
  another cap is as tight (`CopyRange.MaxBytesBoundsCopies`). A finite RLIMIT_FSIZE of 2^63 or more acts as a
  negative limit and refuses everything (`CopyRange.LimitRefusesEverything`).
- default_llseek accepts a negative SEEK_HOLE offset and answers with the file size; the generic function
  refuses it (`Llseek.DefaultAgreesWithGeneric`).
- The data-size sum of check_data_rlimit can wrap unless twice the user address range fits a word
  (`MmLayout.LimitTestsTrueSize`).
- The registry and RLIMIT_AS can part ways: by a refused update, by a foreign setrlimit, by a reused id, and by two
  listed threads of one process (`LimitRlimit.AgreementIffQuiet`).
- A refused addition frees its list node before it unlinks it. That is an access to freed memory every time, and the
  list survives exactly when the freed links have not been overwritten by then (`RingList.Ring.FreeThenDel`,
  `LimitRlimit.Kernel.AddMemoryLimit`).
- The message at the end of a successful taro_get_memory_limits reads through a cursor after the unlock. That is safe
  exactly when there were more entries than asked for and no other call has removed the first one left out by then
  (`LimitRlimit.Kernel.GetMemoryLimits`, with the failing run `LimitRlimit.Kernel.CursorRemoved`).
- do_prlimit stores a limit under task_lock, the registry under its own mutex. When their stores overlap, a soft limit
  can end up above its hard limit; two values are safe together exactly when the registry's limit lies between the two
  words of the other pair (`RlimitStores.PairSafeExactly`).
- Under RLIMIT_DATA the single-address calls of prctl cannot reach every acceptable layout: under a limit of 0 an empty
  data segment and heap do not move, and nothing at all can be set while both data segment and heap exceed the limit
  (`MmLayout.ReachableExactly`).
- The 32-bit sysinfo silently cuts off totals of 2^32 pages and more. Its rescaling loop never ends exactly for a record
  of unit 0 whose ram and swap together do not fit 64 bits (`Sysinfo.CompatSyscall`). Whether there is such a record
  depends on si_meminfo, which fills it and is not part of this model.
- The buffer of the command line to be parsed is sized by another string, and is overrun exactly when that one is
  shorter (`BootCmdline.SetupCommandLine`).
- "init=" is meant to drop earlier arguments but leaves the last usable slot. The old argument in it reappears exactly
  when some stretch of options before the last "init=" had MAX arguments and MAX - 1 or more come after it
  (`BootTables.OnlyLaterArgsVisible`, with the failing run `BootTables.OldArgReappears`).
- Changing a variable that sits in the last usable environment slot is reported as an overflow although nothing
  overflows (`BootTables.Tables.SetEnv`).
- setpriority forgets a refusal of -ESRCH by the security hook when a later task succeeds
  (`Priority.ZeroMeansAllAcceptedExactly`).
- do_dentry_open can fail with its counts still held, for O_DIRECT without support; its callers release them
  (`OpenCounts.File.DoDentryOpen`, `OpenCounts.DentryOpen`).
- sysinfo keeps the number of bytes only for units that are powers of two (`Sysinfo.ScalingKeepsBytes`).

## Model

| member | source | states |
|---|---|---|
| VmaLock.RunKeepsInv | include/linux/mm.h:651-725 | In every interleaving of readers and writers, while numbers have not wrapped, locks exclude each other and every thread's knowledge at its program point is true |
| VmaLock.ReadersExcludeWriters | include/linux/mm.h:651-682 | A VMA that vma_start_read let a thread into is not write-locked and no thread is inside a write of it, in every reachable state |
| VmaLock.ReaderSeesStableFlags | include/linux/mm.h:824-850 | Between vma_start_read and vma_end_read the flags of the VMA do not change, whatever other threads do |
| VmaLock.MmapReadersExcludeWriters | include/linux/mm.h:692-725 | A holder of the mmap lock for reading sees every VMA unchanged and none write-locked |
| VmaLock.StartWriteLocks | include/linux/mm.h:709-725 | Once vma_start_write has returned the VMA stays write-locked until the mmap lock is given up |
| VmaLock.FlagsFollowCalls | include/linux/mm.h:813-871 | In every run, wrapped numbers or not, a bit of a VMA's flags is what the last vm_flags_set, clear, mod, reset or initialisation that speaks of it left; told from the calls alone |
| VmaLock.LocksWhatItAskedFor | include/linux/mm.h:651-725 | A thread in either lock is there for the VMA it last asked for |
| VmaLock.WrapLetsWriterIn | include/linux/mm.h:651-725 | A run with m - 1 releases in which a writer changes the flags under a reader |
| VmaLock.SafeExactlyWithoutWrap | include/linux/mm.h:651-682 | All runs with at most k releases leave readers undisturbed if and only if k releases do not use up the sequence numbers |
| VmaLock.NumbersComeRound | include/linux/mm.h:664-671 | With m sequence numbers the same one comes round after m increments, which is the overflow the comment speaks of |
| JobControl.TaskList.SetPgid | kernel/sys.c:1077-1146 | Either one group id changes under the POSIX conditions, or nothing changes and the error names a condition that fails |
| JobControl.TaskList.SetSid | kernel/sys.c:1229-1260 | Fails exactly for leaders and taken group ids; otherwise the caller gets its own session and group, and nothing else changes |
| JobControl.TaskList.SetSpecialPids | kernel/sys.c:1218-1227 | Both ids of the caller become the given one, whether or not either had it before |
| JobControl.SetPgidKeepsInv | kernel/sys.c:1077-1146 | setpgid keeps groups within sessions and leaders in place, whichever member of the group it looks at |
| JobControl.RunKeepsInv | kernel/sys.c:1077-1260 | Over every run of setpgid, setsid, fork, clone, exec and exit no group straddles two sessions and every leader leads its own group and session |
| JobControl.SetPgidIsPosix | kernel/sys.c:1077-1146 | On every reachable table setpgid succeeds if and only if its POSIX conditions hold for all members of the group |
| JobControl.SetPgidMoves | kernel/sys.c:1077-1146 | Whom a successful setpgid moves and where to, with 0 for the caller and for a group named after the process that is moved; anyone but the caller is a child in its session that has not called exec; nothing else changes |
| JobControl.FreshUntilExec | kernel/sys.c:1106-1113 | Over every run a process counts as not having called exec exactly when it was forked and has not since |
| JobControl.SetSidIsolates | kernel/sys.c:1229-1260 | After a successful setsid the caller alone makes up its session and its group |
| JobControl.SessionChangesOnlyBySetSid | kernel/sys.c:1218-1260 | A living process changes session only by its own setsid, and a leader never does |
| Credentials.Cred.SetReUid | kernel/sys.c:533-596 | All or nothing: the ids named, the saved and filesystem ids that follow from them, or no change and an error that tells why |
| Credentials.Cred.SetUid | kernel/sys.c:614-659 | All four ids for a capable task, effective and filesystem id for others, or no change |
| Credentials.Cred.SetResUid | kernel/sys.c:671-744 | Any mix of the three ids a task already has; a request that changes nothing leaves the filesystem id alone |
| Credentials.Cred.SetFsUid | kernel/sys.c:867-901 | Returns the previous id on every path and changes at most that id |
| Credentials.Cred.SetReGid | kernel/sys.c:376-430 | The group call obeys the same specification as its user twin, though it is written in another order |
| Credentials.Cred.SetGid | kernel/sys.c:442-476 | The group call obeys the same specification as setuid |
| Credentials.IdsNeverGrow | kernel/sys.c:533-901 | No run without the capability brings in an id the task did not start with |
| Credentials.ReachableTriples | kernel/sys.c:671-744 | The id triples reachable without the capability are exactly those made of the starting ids, and one setresuid reaches each |
| Credentials.DroppedForGood | kernel/sys.c:533-901 | A task whose ids are all equal keeps them in every unprivileged run |
| Credentials.WaysToDrop | kernel/sys.c:533-659 | setreuid to the real id by anyone, and setuid by a capable task, both end in a full drop |
| Credentials.SetResDrops | kernel/sys.c:671-744 | setresuid to one id three times, by a task that may, makes all four ids that one |
| Credentials.FsFollowsEffective | kernel/sys.c:533-744 | Over every run without setfsuid, privileged or not, the filesystem id stays the effective one |
| Credentials.ChangeMovesFs | kernel/sys.c:533-744 | Any change by the three calls leaves the filesystem id at the effective one |
| Credentials.SetResNamesEach | kernel/sys.c:671-744 | Each id is what the call names, or stays |
| Credentials.StepDownAndBack | kernel/sys.c:533-596 | A step down to the real id by setreuid keeps the saved id, and the task can come back to it |
| Credentials.SetReMovesSaved | kernel/sys.c:577-580 | The saved id goes along exactly with calls that name the real id or lead away from it |
| Credentials.OnlyTheirIds | kernel/sys.c:614-901 | setfsuid moves the filesystem id alone, a plain setuid the effective and filesystem id |
| Credentials.SwapTwiceRestores | kernel/sys.c:533-596 | Swapping real and effective id twice restores both |
| Credentials.SetUidAloneKeepsSaved | kernel/sys.c:614-659 | A run of setuid calls keeps real and saved id, so both remain reachable |
| LimitList.Registry.AddLimit | kernel/proyecto3/taro_mani_memv1.c:20-54 | The list gains one node at its head exactly when the process is new, the arguments valid and memory found; every exit unlocks and leaves a sound list |
| LimitList.Registry.UpdateLimit | kernel/proyecto3/taro_mani_memv1.c:157-204 | Changes one limit in place, same nodes and order, with the error order of the source |
| LimitList.Registry.RemoveLimit | kernel/proyecto3/taro_mani_memv1.c:207-253 | Unlinks and frees exactly one node; no leak, no dangling link, other entries keep their order |
| LimitList.Registry.GetLimits | kernel/proyecto3/taro_mani_memv1.c:57-103 | The caller receives a prefix of the list and its length, and a shorter prefix when the copy fails on the way |
| LimitList.Registry.Search | kernel/proyecto3/taro_mani_memv1.c:222-253 | The two-pointer walk finds the first node of the process and its predecessor, or proves there is none |
| LimitList.Registry.Unlink | kernel/proyecto3/taro_mani_memv1.c:226-243 | Removing the head or an inner node leaves the list of all other nodes |
| LimitList.RemoveUndoesAdd | kernel/proyecto3/taro_mani_memv1.c:20-253 | Adding and then removing a process gives back the registry entry for entry |
| LimitList.ApplyRefinesMap | kernel/proyecto3/taro_mani_memv1.c:20-253 | Each call acts on the list as on a map and keeps one entry per process |
| LimitList.RunRefinesMap | kernel/proyecto3/taro_mani_memv1.c:20-253 | Over every run the list is an ordered form of the map the calls build, with as many entries as keys |
| LimitRlimit.Kernel.AddMemoryLimit | kernel/usac/taro_mani_mem.c:22-90 | Entry and resource limit together or neither, which error is which, that a refusal and nothing else touches freed memory, and exactly when the list survives it |
| LimitRlimit.Kernel.UpdateMemoryLimit | kernel/usac/taro_mani_mem.c:142-198 | The entry changes in place before the hook is asked, so a refusal leaves the new entry with the old limit |
| LimitRlimit.Kernel.RemoveMemoryLimit | kernel/usac/taro_mani_mem.c:202-230 | Removes the one entry of the process and leaves its resource limit |
| LimitRlimit.Kernel.DoPrlimit | kernel/sys.c:1459-1520 | Reads or replaces one limit pair exactly when order, file count, capability and hook allow |
| LimitRlimit.QuietExact | kernel/usac/taro_mani_mem.c:22-230 | A whole call keeps list and RLIMIT_AS in agreement if and only if a condition on the state before it holds |
| LimitRlimit.AgreementIffQuiet | kernel/usac/taro_mani_mem.c:22-230 | Agreement holds all along a run of whole calls, with forks, threads, exits and foreign setrlimit calls, if and only if every step is of that kind; refused additions are those that leave the list intact |
| LimitRlimit.LimitsStayOrdered | kernel/sys.c:1459-1520 | Over every run of whole calls no soft limit exceeds its hard limit; RlimitStores says when calls are whole |
| LimitRlimit.PrlimitNeverRaises | kernel/sys.c:1459-1520 | Unprivileged prlimit calls never raise a hard limit |
| LimitRlimit.Kernel.GetMemoryLimits | kernel/usac/taro_mani_mem.c:93-139 | The caller receives a prefix of the list, also on partial failure; whatever calls come between the unlock and the message, it reads an allocated entry if and only if there were more entries than asked for and the next one was not removed |
| LimitRlimit.Kernel.Others | kernel/usac/taro_mani_mem.c:22-230 | Any sequence of calls on the heap list is a run of whole calls, and an entry stays allocated until its process is removed |
| LimitRlimit.Kernel.CursorRemoved | kernel/usac/taro_mani_mem.c:124-137 | For every list longer than asked for there is a call of another thread that makes the message touch freed memory |
| RingList.Ring.Find | kernel/usac/taro_mani_mem.c:43-49 | The walk ends at the first entry of the process, or at the head if there is none, and touches allocated nodes only |
| RingList.Ring.AddTail | kernel/usac/taro_mani_mem.c:59-64 | The ring stays sound in both directions with the entry at its end |
| RingList.Ring.Del | kernel/usac/taro_mani_mem.c:76 | Exactly which links list_del writes whatever it reads, when it faults, and that a freed entry is a bad access |
| RingList.Ring.Remove | kernel/usac/taro_mani_mem.c:215-222 | Unlinking and then freeing leaves the ring of all other nodes and touches no freed one |
| RingList.Ring.FreeThenDel | kernel/usac/taro_mani_mem.c:73-80 | Freeing and then unlinking is a bad access always, and leaves a sound ring if and only if the freed links still are the old ones |
| RingList.Ring.Copy | kernel/usac/taro_mani_mem.c:112-122 | The copied prefix, and that the cursor is an allocated entry if and only if there are more entries than asked for |
| RlimitStores.CompatibleRunsOrdered | kernel/usac/taro_mani_mem.c:82 | In every interleaving in which registry limits lie within the pairs they overlap with, no soft limit exceeds its hard limit outside a half-done write |
| RlimitStores.OrderedWithoutOverlap | kernel/sys.c:1478-1499 | The same for every run in which no registry write overlaps a prlimit write to the same process |
| RlimitStores.WholeCalls | kernel/sys.c:1478-1499 | Without overlap every cell at rest holds the last completed write, so whole calls are a faithful view |
| RlimitStores.CompletedWrites | kernel/sys.c:1478-1499 | Without overlap every completed prlimit write was allowed on the value it replaces |
| RlimitStores.RefinesWholeCalls | kernel/sys.c:1478-1499 | Every run without overlap is, step by step, a run of whole calls whose limits are the completed values |
| RlimitStores.RegistryTorn | kernel/usac/taro_mani_mem.c:82 | A run without capability that ends with prlimit's soft and the registry's hard limit |
| RlimitStores.PrlimitTorn | kernel/sys.c:1478-1499 | A run without capability that ends with the registry's soft and prlimit's hard limit |
| RlimitStores.PairSafeExactly | kernel/usac/taro_mani_mem.c:185 | Any number of threads may write two given values in any interleaving without leaving a soft limit above its hard limit if and only if the registry's limit lies between the words of the pair |
| MmLayout.Mm.ValidatePrctlMapAddr | kernel/sys.c:1944-2003 | Accepts exactly the layouts with user addresses, ordered pairs and a machine sum within the limit |
| MmLayout.Mm.PrctlSetMm | kernel/sys.c:2144-2279 | Exactly the address that the option names becomes the given one, and exactly when the resulting layout is acceptable; otherwise nothing changes and the error tells why; each call is a step of the runs below |
| MmLayout.Mm.PrctlSetMmMap | kernel/sys.c:2006-2111 | All addresses change together or not at all, likewise a step of those runs |
| MmLayout.LimitTestsTrueSize | include/linux/mm.h:3327-3339 | The wrapped sum is the true size on all sane layouts if and only if twice the user range fits a word |
| MmLayout.RunKeepsSane | kernel/sys.c:1944-2279 | Every run keeps a sane layout sane; the first success makes any layout sane, and refusals change nothing |
| MmLayout.RunKeepsLimit | kernel/sys.c:1990-1998 | The data size never exceeds the largest of its start and the limits in force when calls succeeded |
| MmLayout.LastCallWins | kernel/sys.c:2006-2279 | Over every run each of the eleven addresses is what the last successful call for it gave, or what it was at the start |
| MmLayout.ReachableExactly | kernel/sys.c:2144-2279 | The layouts reachable one address at a time, for every RLIMIT_DATA and all answers of find_vma, told from the two layouts |
| MmLayout.FrozenAtZero | kernel/sys.c:1990-1998 | Under a limit of 0 an empty data segment and heap never move |
| MmLayout.FreeAboveZero | kernel/sys.c:2144-2279 | Under any other limit a layout within it can become exactly the sane layouts within it whose moved addresses are mapped |
| OpenCounts.File.GetWriteAccess | fs/open.c:879-901 | All write counts are taken or none, also for backing files whose two mounts may be the same |
| OpenCounts.File.TakeAccess | fs/open.c:922-929 | The counts taken are those the mode bits say are held |
| OpenCounts.File.PutAccess | fs/open.c:1013-1017 | Gives back exactly what the mode bits say is held |
| OpenCounts.File.Check | fs/open.c:931-957 | Passes exactly when file operations, security, lease and driver agree, and never touches the bits that say which counts are held |
| OpenCounts.File.FinishMode | fs/open.c:958-976 | The final mode bits, and the one failure after which counts stay held |
| OpenCounts.File.OpenCounted | fs/open.c:922-1017 | Every failure before FMODE_OPENED gives back all counts |
| OpenCounts.File.CheckAndFinish | fs/open.c:931-1017 | Once counted, the counts stay with a file that gets opened and are given back to the last one otherwise |
| OpenCounts.File.DoDentryOpen | fs/open.c:903-1024 | FMODE_OPENED is set exactly when path reference and counts are held; every other exit restores all five counters |
| OpenCounts.OpenedModeBits | fs/open.c:903-976 | Which mode bits an opened file has, bit by bit |
| OpenCounts.DentryOpen | fs/open.c:1091-1109 | A failed open leaves every counter as it was, the late O_DIRECT failure included |
| OpenCounts.OpenThenClose | fs/open.c:1091-1109 | Opening and closing gives back every count, for every mode and every answer of the environment |
| OpenCounts.VfsTruncate | fs/open.c:72-121 | Every exit restores the mount's and the inode's counts; success exactly when all conditions hold |
| OpenRuns.MoveKeepsGood | fs/open.c:879-1024 | Every single step of an open, its ways out, a close or a truncation leaves the thread holding what its program point says |
| OpenRuns.TruncationTakesGood | fs/open.c:85-101 | After either taking step a truncation holds what its next program point says; a refusal leads to the way out that gives back what was taken |
| OpenRuns.TruncationPutsGood | fs/open.c:103-120 | Whatever the truncation answers, both counts are given back, the inode's first and then the mount's |
| OpenRuns.HoldsFollowMode | fs/open.c:903-1024 | Over every interleaving, a file holds from FMODE_OPENED on exactly what its mode bits say; a failed open, a closed file and a finished truncation hold nothing |
| OpenRuns.CountersCountOpenFiles | fs/open.c:879-1024 | Over every interleaving, whenever no operation is under way, all five counters are those at the start plus the open files, also when both mounts are one |
| OpenRuns.OneMoreFile | fs/open.c:903-929 | What an open file holds is what opening it does to the counters |
| OpenRuns.DenialLasts | fs/open.c:883-885 | While the write count is negative no interleaving of opens and truncations makes a writer of the inode or changes that count |
| OpenRuns.OpenAlone | fs/open.c:903-1024 | Step after step, an undisturbed open succeeds under the same condition and with the same mode bits as do_dentry_open as a whole |
| OpenRuns.TruncateAlone | fs/open.c:85-101 | An undisturbed truncation gets to its work exactly when mount, permission, append and write count allow |
| OpenRuns.OperationsEnd | fs/open.c:903-1024 | Whatever the answers, an operation is over after at most ten steps of its own |
| OpenFlags.BuildSucceedsExactly | fs/open.c:1205-1330 | Which openat2 requests are accepted, and that -EAGAIN means only the cached lookup stood in the way |
| OpenFlags.OldOpenFailsExactly | fs/open.c:1189-1330 | The older calls fail exactly on contradictory flags, and never under O_PATH |
| OpenFlags.BuildOpenHowIdempotent | fs/open.c:1189-1203 | Normalising twice is normalising once |
| OpenFlags.OpConsistent | fs/open.c:1205-1330 | What later stages rely on: O_SYNC implies O_DSYNC, O_PATH asks for no access, exclusive creation follows no link |
| OpenFlags.AccessAsAsked | fs/open.c:1205-1330 | Checked access and creation intent are what the caller's flags mean |
| OpenFlags.FlagsPassedOn | fs/open.c:1205-1330 | Flag by flag, what is passed on: all that was given but O_CLOEXEC and FMODE_NONOTIFY, and O_DSYNC with O_SYNC |
| OpenFlags.ModePassedOn | fs/open.c:1236-1245 | Bit by bit, a created file gets the permissions asked for and is regular; otherwise there is no mode |
| OpenFlags.LookupAsAsked | fs/open.c:1205-1330 | Directory, follow, open, create and exclusive bits of the lookup, told from the request |
| OpenFlags.OldOpenKeeps | fs/open.c:1189-1203 | Bit by bit, what the older calls keep of flags and permissions |
| OpenFlags.RestrictionsKept | fs/open.c:1205-1330 | Each of the six lookup restrictions reaches the lookup as its own bit if and only if it was asked for |
| AccessCreds.Task.NeedOverride | fs/open.c:380-405 | The fast test is true exactly when the override would differ from the current credentials |
| AccessCreds.Task.OverrideCreds | fs/open.c:407-461 | Fresh credentials with the real ids, and capabilities for the real root only; the old object is untouched |
| AccessCreds.Task.Faccess | fs/open.c:463-530 | For any permission test the answer is the one under the real ids, whether or not the override was skipped, and the caller's credentials come back |
| CopyRange.GenericFileRwChecks | fs/read_write.c:1724-1741 | Success exactly for regular files with the right modes, and which error wins |
| CopyRange.GenericWriteCheckLimits | fs/read_write.c:1650-1673 | The machine arithmetic computes the true distance to the tightest cap, and exactly which negative count it leaves when a distance overflows |
| CopyRange.RwVerifyArea | fs/read_write.c:357-385 | Allowed exactly when the range stays inside the file's offset space and the hooks agree |
| CopyRange.GenericCopyFileChecks | fs/read_write.c:1416-1480 | Success and count for all positions, overflowing distances included, and over unbounded integers where none overflows, with the order of errors |
| CopyRange.DisjointIsOrdered | fs/read_write.c:1472-1476 | The order test for overlap decides whether two ranges share a byte |
| CopyRange.VfsCopyFileRange | fs/read_write.c:1487-1512 | For all files and positions a copy is reached exactly when allowed; then both ranges are true intervals within every limit, and apart on one inode |
| CopyRange.MaxBytesBoundsCopies | fs/read_write.c:1650-1673 | s_maxbytes bounds all copies if and only if O_LARGEFILE is set or another cap is as tight |
| CopyRange.LimitRefusesEverything | fs/read_write.c:1650-1673 | A finite file-size limit refuses all copies if and only if it is 0 or at least 2^63 |
| Llseek.OpenFile.VfsSetPos | fs/read_write.c:56-68 | The position moves only to an offset in range, and the version is reset only by a move |
| Llseek.OpenFile.GenericFileLlseekSize | fs/read_write.c:87-133 | Wrapping arithmetic gives the answer of lseek over unbounded integers, modulo 2^64 on files with unsigned offsets |
| Llseek.SeekErrors | fs/read_write.c:87-133 | Which error a seek that fails answers with |
| Llseek.OpenFile.FixedSizeLlseek | fs/read_write.c:164-173 | The same with size for limit and end, without data and hole |
| Llseek.OpenFile.NoSeekEndLlseekSize | fs/read_write.c:203-212 | The same for absolute and relative seeks only |
| Llseek.OpenFile.DefaultLlseek | fs/read_write.c:232-284 | The answer of lseek without a limit, with data and hole offsets compared as signed numbers |
| Llseek.SeeksStayInFile | fs/read_write.c:56-133 | Every run of seeks stays in the file and resets the version only if it moved on the way |
| Llseek.SeekRoundTrip | fs/read_write.c:87-133 | A seek is undone by the opposite relative seek and reported by a query |
| Llseek.RelativeSeeksCompose | fs/read_write.c:87-133 | Two relative seeks, the first successful, amount to one, on files with unsigned offsets too |
| Llseek.DefaultAgreesWithGeneric | fs/read_write.c:232-284 | The two functions agree if and only if the request is not a negative data or hole seek |
| VectoredIo.DoLoopReadvWritev | fs/read_write.c:753-784 | The loop is the segment-wise transfer: count or error, and the driver's final state |
| VectoredIo.TransferIsSumOfCalls | fs/read_write.c:753-784 | For any driver only the last call falls short, and the answer is the sum moved, or the error if nothing moved |
| VectoredIo.LoopIsOneTransferIffSplittable | fs/read_write.c:753-784 | The loop equals one transfer for every segmentation if and only if the driver is splittable |
| VectoredIo.ByteFileLoopIsOneTransfer | fs/read_write.c:753-784 | On a byte file with a size cap, reads and writes by segments equal one read or write |
| BootTables.Tables.constructor | init/main.c:188-190 | The initial tables show "init" and the two default variables |
| BootTables.Tables.SetInitArg | init/main.c:503-522 | Appends to the arguments, or leaves a full table alone and records the panic: the tables afterwards as a function of the tables before |
| BootTables.Tables.InitSetup | init/main.c:576-590 | Exactly which slots are cleared |
| BootTables.Tables.SetEnv | init/main.c:550-561 | Replaces the entry with the same key or appends, never past the table, and when a panic is recorded, for any key |
| BootTables.Tables.AppendArg | init/main.c:562-572 | Stores into the first free slot, even the last, and records a panic exactly then |
| BootTables.Tables.UnknownBootOption | init/main.c:528-574 | Which options are taken elsewhere, which table the others go to, and that both tables stay well formed |
| BootTables.WhereOptionsGo | init/main.c:528-590 | Told from key, value and who else takes the option: when nothing changes, what init= clears, and into which table the others go |
| BootTables.Tables.Measure | init/main.c:844-852 | The computed length is that of the text to be printed |
| BootTables.Tables.PrintUnknownBootOptions | init/main.c:830-871 | The notice is the visible options in order and with its NUL fills the computed buffer exactly; when nothing is printed |
| BootTables.MatchesIsKey | init/main.c:550-561 | Comparing one character more than the key finds exactly the entry with that key |
| BootTables.PutEnvProper | init/main.c:550-561 | No key ever appears twice |
| BootTables.PutEnvIsUpdate | init/main.c:550-561 | Setting a variable is a map update |
| BootTables.OnlyLaterArgsVisible | init/main.c:503-602 | Over every run without a panic, with any number of init= options, init sees just the arguments after the last of them if and only if no stretch of options before it had MAX arguments or fewer than MAX - 1 come after |
| BootTables.OldArgReappears | init/main.c:576-590 | A run of four options after which an argument from before init= is seen again |
| BootTables.OptionsRun | init/main.c:503-602 | Over every sequence of mixed options the tables stay well formed; until a panic the environment is the map the options describe, within the table, and without init= the arguments are all there in order |
| BootTables.PanicExactly | init/main.c:528-574 | A panic becomes due if and only if another argument meets a full table, or a full environment meets a key that is new or sits in its last slot |
| BootTables.RepairEnvString | init/main.c:488-500 | Key and value become one string again, quoted or not, and nothing outside it changes |
| BootCmdline.XbcSnprintCmdline | init/main.c:322-354 | The answer is the full length or the first error whatever the size, and the buffer holds the text up to its size |
| BootCmdline.XbcMakeCmdline | init/main.c:358-387 | The second pass never truncates: the result is the whole text and its NUL in an exact buffer |
| BootCmdline.PrintedReadsBack | init/main.c:322-354 | What is printed reads back as the keys and values of the bootconfig, in order, whenever names hold no space or equals sign and values no quote |
| BootCmdline.AddInitArgs | init/main.c:647-668 | Extra init arguments end up before those on the command line or after a new separator |
| BootCmdline.SetupCommandLine | init/main.c:617-671 | The saved command line holds the intended text in a buffer that fits exactly or with three bytes to spare; the one to be parsed fits if and only if it is no longer than the boot command line |
| BootCmdline.SavedInOrder | init/main.c:647-668 | Nothing of the boot command line is lost: the extra arguments for init stand right after its "--", or behind a new one |
| Sysinfo.FoldUnit | kernel/sys.c:2819-2828 | The doubling loop reports overflow exactly when the total times the unit's leading power of two exceeds 64 bits |
| Sysinfo.DoSysinfo | kernel/sys.c:2788-2849 | Figures are shifted exactly when ram plus swap fit, without loss for parts of their totals; otherwise none is touched |
| Sysinfo.ScalingKeepsBytes | kernel/sys.c:2788-2849 | Bytes are preserved if and only if the unit is a power of two or all figures are 0 |
| Sysinfo.LiftToPage | kernel/sys.c:2892-2897 | The unit is lifted by the least power of two that reaches a page, to the page itself for powers of two |
| Sysinfo.CompatRescale | kernel/sys.c:2891-2907 | The 32-bit variant loses less than one new unit per figure, and has no answer exactly when no number of doublings brings the unit of a large record to a page |
| Sysinfo.LoopEndsExactly | kernel/sys.c:2894-2897 | No number of doublings brings a unit of 0 to a page, and every other unit gets there |
| Sysinfo.CompatSysinfo | kernel/sys.c:2891-2923 | The unit of the answer, and every figure as whole units in 32 bits; records with small totals come back unchanged; for powers of two the answer is true to less than one unit if and only if both totals are below 2^32 pages; when there is no answer |
| Sysinfo.CompatSyscall | kernel/sys.c:2881-2927 | The same told from the record that is filled before do_sysinfo scales it: bytes when the scaled totals fit 32 bits, otherwise the record's unit or pages; when the answer is true, and when the call never ends |
| Sysinfo.NarrowedTrueExactly | kernel/sys.c:2914-2923 | Narrowing the rescaled record is harmless under exactly that condition |
| Priority.Scheduler.SetOnePrio | kernel/sys.c:198-220 | A refused task keeps its value, an accepted one gets the new value, and how the running error changes |
| Priority.Scheduler.SetPriority | kernel/sys.c:222-284 | Every named task is judged on its own, all others keep their value, and the error is the fold over the named ones |
| Priority.NamedById | kernel/sys.c:242-281 | Which tasks a request names, for each kind and for 0 |
| Priority.NotRefused | kernel/sys.c:182-220 | A task is accepted exactly if it belongs to the caller or is in its power, lowering is allowed, and the hook agrees; the error otherwise |
| Priority.Scheduler.GetPriority | kernel/sys.c:292-355 | The maximum over the named tasks, and -ESRCH exactly when there are none |
| Priority.Scheduler.SetThenGet | kernel/sys.c:222-355 | After a 0 answer the same request reports the clamped value |
| Priority.FoldIsLastRefusal | kernel/sys.c:198-220 | The answer is the last refusal; only -ESRCH is forgotten when a success follows |
| Priority.FoldZero | kernel/sys.c:198-220 | Without hook answers of -ESRCH, 0 means exactly that tasks were named and none refused |
| Priority.ZeroMeansAllAcceptedExactly | kernel/sys.c:198-220 | That reading of 0 holds if and only if no success follows a last refusal of -ESRCH |

## Left out

- VfsCopyFileRange: ends where the copy starts; remapping, splicing and freeze protection are not modelled.
- GetLimits: a failing copy to the caller is counted in whole entries, as in GetMemoryLimits; the link words that the source copies along with each entry are not modelled.
- GetMemoryLimits: the other calls run one after the other, and refused additions among them leave the list intact.
- AgreementIffQuiet: a refused addition that finds its freed links overwritten ends the run, since AddMemoryLimit then leaves no list.
- Fill: allocates its buffer under the mutex, which the source does before taking it.
- CompatSysinfo: its precision is stated for figures that are parts of their totals and for units and pages that are powers of two.
- SetupCommandLine: lengths are unbounded integers, and the panic on a failed allocation is not modelled.
- XbcSnprintCmdline: lengths are unbounded, so the source's `int` totals do not overflow.
- DoLoopReadvWritev: a segment list stands for iov_iter, which is not part of this model, as is the cap on the number of bytes per call.
- Faccess: the argument checks and the retry after a stale lookup are part of the permission test it is given.
- OpenRuns: one path, whose inode and mounts stay the same; put_file_access, which gives the writers back, is not part of this model, so the order of its three steps is chosen here.
- Fput: stands for the release of an opened file, whose source is not part of this model; what it gives back is tied to what opening takes.
- GenericFileLlseekSize: the f_lock that orders concurrent relative seeks is not modelled.
- AddMemoryLimit: looks the task up and takes its reference in one step, as does UpdateMemoryLimit; the source looks it up before the mutex and takes the reference under it, so a task that exits in between is not covered.
- ReachableExactly: the limit and the mappings stay the same along a run.
- RlimitStores: reads of a limit by third parties while a write is half done are not modelled.
- VmaLock: the loads and stores are sequentially consistent steps; the weaker orderings of READ_ONCE, WRITE_ONCE and smp_load_acquire, and the lifetime of VMAs under RCU, are not modelled.
- JobControl: one pid namespace; thread-group leadership that passes on at exec is not modelled.
- Credentials: id maps of user namespaces are taken to be injective; capability sets, keyrings and process counts beyond a failure answer are not modelled.
- setresgid and setfsgid: the same text as their user twins.
- The other taro calls, the modules and the user-space programs, which only gather statistics or call these.
- prctl options other than PR_SET_MM, and the auxiliary-vector and executable parts of PR_SET_MM beyond their answers.
- start_kernel, initcalls and the execution of init in init/main.c; ioctls, chmod, chown and fallocate in fs/open.c; read, write, sendfile and the system-call wrappers in fs/read_write.c; times, umask, uname and rusage in kernel/sys.c.
- Page flags, page tables and reference counts of pages in include/linux/mm.h.
