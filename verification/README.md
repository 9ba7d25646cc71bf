# Models of the kernel extensions and thread programs

Dafny models of the parts of this repository with the most branching, state and arithmetic, and
proofs of what they promise. Paths are relative to the repository's root.

* **The sort system call.** `MergeSortSpec.dfy` says what the merge sort computes on elements that
  remember their position, `MergeSortCost.dfy` how many comparisons it makes, and `MergeSort.dfy`
  holds the in-place sort over arrays, with its scratch array, and the system call.
* **Credentials.** `Credentials.dfy` has the eight set-id calls, each editing a copy of the
  credentials and committing or dropping it; `CredentialCalls.dfy` says what each gives its caller and
  what the capability adds, `CredentialRuns.dfy` what unprivileged runs can reach.
* **Process groups and sessions** (`ProcessGroups.dfy`): `setpgid`, `setsid`, and what fork, thread
  creation, exec and exit do to the ids.
* **The memory map** (`MemoryMap.dfy`, `MemoryMapReach.dfy`): `prctl(PR_SET_MM, ...)`, whole or by
  member, and which layouts it can reach.
* **Child subreapers** (`Subreaper.dfy`): the flag and the pruned walk over the process tree.
* **Resource limits** (`Rlimit.dfy`), **memory figures** (`SysInfo.dfy`), **priorities**
  (`Priority.dfy`).
* **Two-thread programs**: shared memory (`SharedMemory.dfy`, `SharedMemoryProgress.dfy`), pipes
  (`Pipes.dfy`), message queues (`Queues.dfy`), as interleavings of the two loops' steps, for tables
  of any length.
* **The animal module**: `strcmp` (`CStrings.dfy`), sorting, grouping and filters
  (`AnimalGroups.dfy`), and the circular lists on the heap (`AnimalLists.dfy`).

Calls into code that is not in the repository are inputs of the models: capabilities, security
hooks, allocation, user-memory copies, whether a mapping or a user record exists. System calls are
atomic and the threads' memory is sequentially consistent.

Where the code does less than one would expect of it, the exact condition is proved:

* The merge sort sorts a range exactly when the range is no longer than the scratch array of its
  merges, or a single element; on a longer one some merge writes past that array (`MergeSort`).
  `my_sort` accepts sizes from 256 up and its scratch array has 256 elements, so it sorts 256
  elements and nothing else (`MySort`).
* Soft limits stay within hard ones, except that a processor limit of zero and zero becomes one and
  zero (`SoftAboveHardExactly`, `NoTimeIsOneSecond`).
* An unprivileged run of user-id calls ends where one `setfsuid`, or one `setresuid` and one
  `setfsuid`, ends, unless the effective id has no number in the namespace, differs from the saved
  id, and the real or the saved id has a number (`NormalFormExactly`, and a task for which it fails:
  `VisitorGoesFurther`).
* `setpriority` can report success although a task was refused, when hooks answer "no such process"
  (`Priority.SucceedsExactly`, `SuccessDespiteRefusal`).
* In shared memory thread1 can wait forever, exactly when a flag was set while still set, which can
  happen exactly with two or more messages (`OutcomeExactly`, `LostWakeUpExactly`).
* One-member `PR_SET_MM` calls lead from one valid layout to another exactly when there is no data
  limit, or one of two bytes or more, or data segment and heap need not move (`ConnectedExactly`,
  `OneByteKeepsApart`). They cannot repair a layout that is wrong in more than one way
  (`ReachableExactly`, `TwiceWrongIsStuck`).
* The pipe programs finish exactly when a pipe has room for one write, and for all of a thread's
  writes less one table's worth of reads; with less, no schedule finishes (`FinishesExactly`). For
  the ten records of 48 bytes that is 4320 bytes (`TenRecordsNeed4320`).

`hide` statements only keep definitions out of individual proofs.

## Model

| member | source | states |
|---|---|---|
| MergeSort.Merge | HW2_APES/PROBLEM5/system_call/sys.c:162-187 | For a scratch array of any size: with room for both parts it replaces a[i1..j2] by their merge and nothing else, writing the scratch array up to index j2-i1 only, at the comparison cost of that merge; without room it stops at the array's end |
| MergeSort.FillScratch | HW2_APES/PROBLEM5/system_call/sys.c:166-182 | The three copying loops leave the merge of the two ranges in the first j2-i1+1 scratch elements, if there are that many, and the rest of the scratch array as it was |
| MergeSort.PickSmaller | HW2_APES/PROBLEM5/system_call/sys.c:166-176 | Wherever the comparing loop stops, what it wrote followed by the merge of what is left is the whole merge, and costs add up likewise |
| MergeSort.MergeSort | HW2_APES/PROBLEM5/system_call/sys.c:196-207 | Sorts a range in place, with the counted number of comparisons, exactly when the range fits the scratch array or is a single element; the furthest any merge writes that array is the range's length, or the array's end; leaves everything outside the range alone and terminates by j-i |
| MergeSort.MySort | HW2_APES/PROBLEM5/system_call/sys.c:914-986 | Which error each failing step gives; with all steps succeeding, exactly 256 elements are sorted, and more overrun the scratch array; a returned buffer is the stable descending sort, and a permutation, of the input |
| MergeSort.SortAndReverse | HW2_APES/PROBLEM5/system_call/sys.c:947-952 | For any buffer and any scratch array: the second buffer becomes the stable descending sort of the first exactly when the first fits the scratch array or has one element |
| MergeSort.CopyBackwards | HW2_APES/PROBLEM5/system_call/sys.c:949-952 | The second buffer is the first one reversed |
| MergeSortSpec.MergedSwapsTies | HW2_APES/PROBLEM5/system_call/sys.c:170-182 | Merging puts the right part's elements of any key before the left part's, each part's order kept |
| MergeSortSpec.SortedAscends | HW2_APES/PROBLEM5/system_call/sys.c:196-207 | The sort's result ascends |
| MergeSortSpec.SortedPermutes | HW2_APES/PROBLEM5/system_call/sys.c:196-207 | The sort's result is a permutation of its input |
| MergeSortSpec.SortedReversesTies | HW2_APES/PROBLEM5/system_call/sys.c:170-207 | Elements of equal key come out in exactly reversed order |
| MergeSortSpec.ReversedSortIsStable | HW2_APES/PROBLEM5/system_call/sys.c:947-952 | Sorting up and copying backwards is a stable descending sort and a permutation |
| MergeSortSpec.StableSortIsUnique | HW2_APES/PROBLEM5/system_call/sys.c:905-952 | There is only one stable descending sort of an input, so the call's result is determined |
| MergeSortSpec.StableSortKeepsTagOrder | HW2_APES/PROBLEM5/system_call/sys.c:947-952 | With elements tagged by position, equal keys keep the order of their tags |
| MergeSortCost.SortCostBound | HW2_APES/PROBLEM5/system_call/sys.c:947-948 | On n elements at most n*ceil(log2 n) - 2^ceil(log2 n) + 1 key comparisons are made |
| MergeSortCost.WorstCaseIsReached | HW2_APES/PROBLEM5/system_call/sys.c:170-207 | Every strictly ascending sequence can be rearranged into an input that needs exactly that many |
| MergeSortCost.WorstCaseOfLength | HW2_APES/PROBLEM5/system_call/sys.c:170-207 | So the bound is reached at every length up to the number of different 32-bit keys |
| MergeSortCost.RecurrenceIsWorstCase | HW2_APES/PROBLEM5/system_call/sys.c:200-206 | The closed form solves the recurrence of the two halves and their merge |
| MergeSortCost.MergeCostBound | HW2_APES/PROBLEM5/system_call/sys.c:170-176 | A merge compares less often than it has elements |
| Credentials.Task.SetUser | HW2_APES/PROBLEM5/system_call/sys.c:484-508 | Fails without touching anything, or moves the copy to its real uid's record and sets the process-limit flag |
| Credentials.Task.SetReUid | HW2_APES/PROBLEM5/system_call/sys.c:525-583 | Result and credentials are those of the rules for users, in every environment, although it assigns before it checks |
| Credentials.Task.SetUid | HW2_APES/PROBLEM5/system_call/sys.c:596-636 | The same for setuid |
| Credentials.Task.SetResUid | HW2_APES/PROBLEM5/system_call/sys.c:643-706 | The same for setresuid |
| Credentials.Task.SetFsUid | HW2_APES/PROBLEM5/system_call/sys.c:809-843 | The same for setfsuid, which reports the old id whatever happens |
| Credentials.Task.SetReGid | HW2_APES/PROBLEM5/system_call/sys.c:392-442 | Result and credentials are those of the same rules applied to groups, although it checks before it assigns |
| Credentials.Task.SetGid | HW2_APES/PROBLEM5/system_call/sys.c:449-479 | The same for setgid |
| Credentials.Task.SetResGid | HW2_APES/PROBLEM5/system_call/sys.c:730-780 | The same for setresgid |
| Credentials.Task.SetFsGid | HW2_APES/PROBLEM5/system_call/sys.c:848-881 | The same for setfsgid |
| Credentials.CheckRes | HW2_APES/PROBLEM5/system_call/sys.c:655-681 | Invalid arguments, then memory, then permission decide, in that order |
| CredentialCalls.UidOutcome | HW2_APES/PROBLEM5/system_call/sys.c:525-706 | For setreuid, setuid and setresuid in every environment: an unknown id, no memory, an id that is not the task's own without the capability, no user record, the hook's answer, or zero, the first in this order |
| CredentialCalls.UidEffect | HW2_APES/PROBLEM5/system_call/sys.c:525-706 | What each of them leaves when it succeeds: every id, with the saved one kept by setreuid only if at most the real id is asked for as effective one, the user record and the process-limit flag |
| CredentialCalls.FsOutcome | HW2_APES/PROBLEM5/system_call/sys.c:809-843 | setfsuid reports the old id's number, or 65534 if it has none, and exactly when it changes the id |
| CredentialCalls.SetUidIsFinal | HW2_APES/PROBLEM5/system_call/sys.c:611-629 | After a privileged setuid(u) every unprivileged run ends with all four ids u |
| CredentialCalls.SetGidIsFinal | HW2_APES/PROBLEM5/system_call/sys.c:467-469 | The same for setgid and runs of group-id calls |
| CredentialCalls.SetUidIsTemporary | HW2_APES/PROBLEM5/system_call/sys.c:620-627 | Without the capability setuid can be taken back when the effective id was the real or the saved one |
| CredentialCalls.PrivilegedReachableExactly | HW2_APES/PROBLEM5/system_call/sys.c:525-843 | Exactly which ids runs can end with when calls may have the capability |
| CredentialRuns.UserRecordFollowsRealUid | HW2_APES/PROBLEM5/system_call/sys.c:484-508 | Over every run, failing calls included, the user record belongs to the real uid and group ids stay put |
| CredentialRuns.FailedCallKeepsCredentials | HW2_APES/PROBLEM5/system_call/sys.c:564-582 | A failing call changes no id; only a hook's refusal of a new real uid can leave the process-limit flag moved |
| CredentialRuns.RunReaches | HW2_APES/PROBLEM5/system_call/sys.c:511-636 | Without the capability a run changes the filesystem id alone, or gives each main id its own value or that of one that has a number, or moves the effective id into the saved one; after either of the last two the filesystem id is one of the new three |
| CredentialRuns.NormalFormExactly | HW2_APES/PROBLEM5/system_call/sys.c:511-706 | Every unprivileged run ends where one setfsuid, or one setresuid and one setfsuid, ends, if and only if the effective id has a number in the namespace, or equals the saved id, or neither the real nor the saved id has one |
| CredentialRuns.ShortWayExactly | HW2_APES/PROBLEM5/system_call/sys.c:643-843 | Which ids one setfsuid, or one setresuid and one setfsuid, can lead to |
| CredentialRuns.VisitorGoesFurther | HW2_APES/PROBLEM5/system_call/sys.c:568-571 | A task of ids 1000, 2000, 3000 where only 1000 has a number reaches ids that no such short way reaches |
| CredentialRuns.ReachableExactly | HW2_APES/PROBLEM5/system_call/sys.c:596-843 | Exactly which ids unprivileged runs can end with, in any namespace |
| CredentialRuns.DropIsFinal | HW2_APES/PROBLEM5/system_call/sys.c:517-519 | After a successful setreuid(u, u) no unprivileged run changes any of the four ids |
| CredentialRuns.FrozenExactly | HW2_APES/PROBLEM5/system_call/sys.c:517-519 | A task is unable to change its ids exactly when the four agree, or the filesystem id is the effective one and none of the ids has a number in the namespace |
| CredentialRuns.StepsCorrespond | HW2_APES/PROBLEM5/system_call/sys.c:392-479 | A group-id call matches the user-id call in result and new ids when records and hooks do not interfere |
| CredentialRuns.RunsCorrespond | HW2_APES/PROBLEM5/system_call/sys.c:730-881 | So do whole runs |
| CredentialRuns.GidRunReaches | HW2_APES/PROBLEM5/system_call/sys.c:848-881 | The reachability of unprivileged user-id runs carries over to groups, with user ids and record untouched |
| ProcessGroups.ProcessTable.SetPgid | HW2_APES/PROBLEM5/system_call/sys.c:1097-1166 | Error or new group as specified in every case, whichever member of the group the kernel happens to look at |
| ProcessGroups.ProcessTable.SetSid | HW2_APES/PROBLEM5/system_call/sys.c:1244-1275 | Refused for a leader or when a group of that number exists; otherwise the caller leads its own session and group |
| ProcessGroups.ProcessTable.SetSpecialPids | HW2_APES/PROBLEM5/system_call/sys.c:1233-1242 | Session and group both become the given number |
| ProcessGroups.SetPgidOutcome | HW2_APES/PROBLEM5/system_call/sys.c:1104-1155 | The result in every case, the first thing in the way of it or zero |
| ProcessGroups.SetPgidMoves | HW2_APES/PROBLEM5/system_call/sys.c:1104-1159 | Zero puts the process named, or the caller for 0, into the group named, or that of its own number for 0; nothing else moves, and any other result moves nothing |
| ProcessGroups.ParentMovesChildExactly | HW2_APES/PROBLEM5/system_call/sys.c:1126-1151 | A parent can move a child exactly while it has not execed, shares the session and does not lead one, into its own group or one of the session |
| ProcessGroups.SetSidOutcome | HW2_APES/PROBLEM5/system_call/sys.c:1244-1275 | setsid succeeds exactly for a process that leads no session and whose number no group has, makes it lead both, and moves nobody else |
| ProcessGroups.ForkedChildCanLead | HW2_APES/PROBLEM5/system_call/sys.c:1252-1263 | A child just forked can always call setsid |
| ProcessGroups.RunKeepsInv | HW2_APES/PROBLEM5/system_call/sys.c:1097-1275 | Over every run groups stay within sessions, the group of a live process's number is in its session, and exactly the leaders are in the session of their number |
| ProcessGroups.EventKeepsInv | HW2_APES/PROBLEM5/system_call/sys.c:1126-1158 | Each single call, fork, thread, exec or exit keeps this |
| ProcessGroups.SessionChangesOnce | HW2_APES/PROBLEM5/system_call/sys.c:1252-1263 | A living process changes session at most once, to lead its own, and then keeps session and group |
| ProcessGroups.GuardExactly | HW2_APES/PROBLEM5/system_call/sys.c:1256-1260 | Without the guard setsid would break this exactly when another process is in the group of the caller's number |
| MemoryMap.Mm.Validate | HW2_APES/PROBLEM5/system_call/sys.c:1970-2055 | Accepts exactly the requests with every member in range, ordered pairs, heap above data, within the data limit, and permitted extras |
| MemoryMap.Mm.SetMmMap | HW2_APES/PROBLEM5/system_call/sys.c:2058-2139 | Installs the whole layout or leaves the old one, with the error of the first step that fails |
| MemoryMap.Mm.SetMm | HW2_APES/PROBLEM5/system_call/sys.c:2172-2299 | Changes the one member or nothing, with the error each check gives |
| MemoryMap.CallKeepsValid | HW2_APES/PROBLEM5/system_call/sys.c:2260-2298 | Any accepted change leaves a valid layout, any rejected call the old one |
| MemoryMap.ValidExactly | HW2_APES/PROBLEM5/system_call/sys.c:1991-2032 | What the checks amount to: all members in the address space, code and data not empty, the heap beyond the data, no stretch of negative length, data and heap within the limit |
| MemoryMap.MemberOutcome | HW2_APES/PROBLEM5/system_call/sys.c:2196-2295 | With the capability a change of one member is accepted exactly when it leaves a valid layout and a mapping lies above the address or the member is one of code, data and heap; it changes that member alone |
| MemoryMap.WithoutCapability | HW2_APES/PROBLEM5/system_call/sys.c:2190-2191 | Without the capability no call but the whole-map one changes the layout, and all but the two map calls fail with EPERM |
| MemoryMap.MapOutcome | HW2_APES/PROBLEM5/system_call/sys.c:2058-2139 | The whole-map call's result in every case; it installs the request exactly when that is zero, and needs no capability but for another executable |
| MemoryMap.SpareArguments | HW2_APES/PROBLEM5/system_call/sys.c:2180-2183 | Arguments a call has no use for have to be zero |
| MemoryMapReach.PlanArrives | HW2_APES/PROBLEM5/system_call/sys.c:2172-2299 | Between any two valid layouts, that agree on data segment and heap if there is a data limit, the plan of raising from the top and lowering from the bottom is accepted call by call, one call per differing member |
| MemoryMapReach.DifferingIsNamed | HW2_APES/PROBLEM5/system_call/sys.c:2222-2258 | No sequence of single-member calls can do with fewer |
| MemoryMapReach.WholeMapIsReachable | HW2_APES/PROBLEM5/system_call/sys.c:2058-2139 | Whatever the whole-map call installs over a valid layout, single-member calls can build |
| MemoryMapReach.NoCapabilityNoChange | HW2_APES/PROBLEM5/system_call/sys.c:2190-2191 | Without the capability no sequence of single-member calls gets anywhere |
| MemoryMapReach.ConnectedExactly | HW2_APES/PROBLEM5/system_call/sys.c:2026-2032 | Under any data limit, one valid layout can be made into another call by call exactly when the limit is two bytes or more, or data segment and heap are the same in both |
| MemoryMapReach.ReachableExactly | HW2_APES/PROBLEM5/system_call/sys.c:2207-2262 | From any layout, valid or not, under any data limit, a valid one is reachable exactly when it is there already or one change leads to a valid layout so connected to it |
| MemoryMapReach.TwiceWrongIsStuck | HW2_APES/PROBLEM5/system_call/sys.c:2005-2014 | A layout without code and without data cannot be made valid one member at a time |
| MemoryMapReach.TightLimitFreezes | HW2_APES/PROBLEM5/system_call/sys.c:2026-2032 | Under a one-byte data limit no run of accepted calls moves the data and heap members |
| MemoryMapReach.OneByteKeepsApart | HW2_APES/PROBLEM5/system_call/sys.c:2026-2032 | Two layouts, one heap address apart, that this limit keeps apart |
| Subreaper.TaskTree.PropagateHasChildSubreaper | HW2_APES/PROBLEM5/system_call/sys.c:2313-2329 | Flags the task and asks to descend exactly when it is neither flagged nor a namespace reaper |
| Subreaper.TaskTree.WalkProcessTree | HW2_APES/PROBLEM5/system_call/sys.c:2315-2329 | From flags closed but for the tasks being visited, the walk flags only what is below its top, all its children, and restores the closure |
| Subreaper.TaskTree.SetChildSubreaper | HW2_APES/PROBLEM5/system_call/sys.c:2480-2486 | The pruned walk flags exactly the tasks a full walk would, and the flags are closed again |
| Subreaper.ClosureCovers | HW2_APES/PROBLEM5/system_call/sys.c:2315-2322 | Once flags are closed, every task below the top with no reaper on the way carries the flag |
| Subreaper.RunKeepsInherited | HW2_APES/PROBLEM5/system_call/sys.c:2480-2486 | Closure holds over every run of the call and of forks that inherit the flag |
| Subreaper.FlagIsComplete | HW2_APES/PROBLEM5/system_call/sys.c:2315-2322 | After any run every task below a subreaper in its namespace is flagged |
| Subreaper.FlagIsFounded | HW2_APES/PROBLEM5/system_call/sys.c:2480-2486 | And every flagged task has above it one that asked to be a subreaper |
| Subreaper.SubreaperExactly | HW2_APES/PROBLEM5/system_call/sys.c:2480-2482 | After any run a task is a subreaper exactly when its last call said so, or it made none and was one before |
| Subreaper.CallFlagsExactly | HW2_APES/PROBLEM5/system_call/sys.c:2313-2329 | One call flags exactly the tasks below the caller with no namespace reaper on the way |
| Subreaper.FlagsOnlySpread | HW2_APES/PROBLEM5/system_call/sys.c:2315-2329 | No flag is ever cleared, and a namespace reaper never gets one after its birth |
| Rlimit.Signal.DoPrlimit | HW2_APES/PROBLEM5/system_call/sys.c:1610-1674 | The verdict of every check in order, the limits afterwards, the old limit reported, and that the caller's structure is rewritten exactly by calls that ask for a zero soft processor limit of a task that is still alive, rejected or not |
| Rlimit.Signal.Prlimit64 | HW2_APES/PROBLEM5/system_call/sys.c:1699-1744 | The same through the 64-bit structures, with the errors of copying and finding the task |
| Rlimit.SucceedsExactly | HW2_APES/PROBLEM5/system_call/sys.c:1610-1642 | A change succeeds exactly when soft is within hard, the resource exists, the files stay within the system's, the task is alive, the hook agrees, and the hard limit does not rise or the capability is there |
| Rlimit.RefusedBecause | HW2_APES/PROBLEM5/system_call/sys.c:1610-1642 | Which error each refusal gives |
| Rlimit.StoresExactly | HW2_APES/PROBLEM5/system_call/sys.c:1643-1657 | A success stores what was asked for, but for the processor limit of zero, and touches no other resource |
| Rlimit.CapabilityRaises | HW2_APES/PROBLEM5/system_call/sys.c:1638-1640 | With the capability any hard limit can be had |
| Rlimit.ConversionsAgree | HW2_APES/PROBLEM5/system_call/sys.c:1576-1607 | For both widths of a long, conversion back from 64 bits undoes conversion to it, keeps order, and loses exactly the finite values beyond the long |
| Rlimit.RunKeepsSoftWithinHard | HW2_APES/PROBLEM5/system_call/sys.c:1618-1658 | Over every run soft limits stay within hard ones, but for a processor limit of one and zero |
| Rlimit.SoftAboveHardExactly | HW2_APES/PROBLEM5/system_call/sys.c:1643-1651 | The exception comes from asking for zero and zero, and from nothing else |
| Rlimit.NoTimeIsOneSecond | HW2_APES/PROBLEM5/system_call/sys.c:1643-1651 | Any task that is alive and that the hook allows to can ask for it and ends up with one and zero |
| Rlimit.HardLimitsNeverRise | HW2_APES/PROBLEM5/system_call/sys.c:1638-1640 | Without the capability no run raises a hard limit |
| Rlimit.LoweredForGood | HW2_APES/PROBLEM5/system_call/sys.c:1638-1658 | So a hard limit bounds every later soft limit |
| Rlimit.SetThenGet64 | HW2_APES/PROBLEM5/system_call/sys.c:1699-1744 | What the 64-bit call stores it reports again, up to infinities and the zero processor limit |
| SysInfo.Info.DoSysinfo | HW2_APES/PROBLEM5/system_call/sys.c:2584-2617 | The figures are scaled exactly when total memory in bytes, without wrap-around, fits a word: the sum test and the one-bit test are exact |
| SysInfo.SumWraps | HW2_APES/PROBLEM5/system_call/sys.c:2584-2586 | The sum test notices every overflow and nothing else |
| SysInfo.DoublingWraps | HW2_APES/PROBLEM5/system_call/sys.c:2592-2595 | So does the one-bit test |
| SysInfo.Info.RescaleForCompat | HW2_APES/PROBLEM5/system_call/sys.c:2658-2674 | The figures are put into pages when a total needs more than 32 bits, else left alone |
| SysInfo.InBytesValue | HW2_APES/PROBLEM5/system_call/sys.c:2606-2613 | When the scaling goes ahead no figure overflows |
| SysInfo.InBytesIsExact | HW2_APES/PROBLEM5/system_call/sys.c:2598-2613 | Scaling to bytes keeps every figure's value for a power-of-two unit |
| SysInfo.InBytesExactly | HW2_APES/PROBLEM5/system_call/sys.c:2588-2613 | For other units it keeps no figure but zero |
| SysInfo.CountsBytesExactly | HW2_APES/PROBLEM5/system_call/sys.c:2584-2613 | The record counts bytes exactly when a word can count all memory in bytes, and is left alone otherwise |
| SysInfo.CompatIsWithinAPage | HW2_APES/PROBLEM5/system_call/sys.c:2655-2674 | What a 32-bit caller is told is within a page below the original bytes, and exact when the kernel counts in pages |
| SysInfo.CountsPagesExactly | HW2_APES/PROBLEM5/system_call/sys.c:2658-2674 | A 32-bit caller is told whole pages, rounded down, exactly when a total takes more than 32 bits |
| SysInfo.CompatFitsExactly | HW2_APES/PROBLEM5/system_call/sys.c:2676-2690 | A figure fits the 32-bit record exactly when 2^32 pages would hold it |
| Priority.TaskList.SetOnePrio | HW2_APES/PROBLEM5/system_call/sys.c:214-236 | An accepted task gets the value and clears a pending "no such process"; a refused one keeps its value and gives its error |
| Priority.TaskList.SetPriority | HW2_APES/PROBLEM5/system_call/sys.c:238-300 | For every selector exactly the accepted tasks change, to the clamped value, and the error is the one carried through all selected tasks |
| Priority.TaskList.GetPriority | HW2_APES/PROBLEM5/system_call/sys.c:308-371 | The maximum over the selected tasks, or "no such process" for none |
| Priority.SelectedExactly | HW2_APES/PROBLEM5/system_call/sys.c:255-292 | Whom a call is about: one process, group or user, by number or the caller's own for zero |
| Priority.ClampedIsNearest | HW2_APES/PROBLEM5/system_call/sys.c:251-255 | The value set is the nearest one from -20 to 19 |
| Priority.AcceptedExactly | HW2_APES/PROBLEM5/system_call/sys.c:214-236 | When a task is accepted, and why it is refused |
| Priority.ChangesExactly | HW2_APES/PROBLEM5/system_call/sys.c:250-299 | Exactly the tasks selected and accepted change |
| Priority.PriorityOfSet | HW2_APES/PROBLEM5/system_call/sys.c:328-366 | getpriority's answer is from 1 to 40, the best over the set, or that the set is empty |
| Priority.SucceedsExactly | HW2_APES/PROBLEM5/system_call/sys.c:231-235 | Setpriority returns zero exactly when some task is selected and the last task refused, if any, was refused by a hook with "no such process" and has an accepted one after it |
| Priority.SuccessDespiteRefusal | HW2_APES/PROBLEM5/system_call/sys.c:231-235 | Two tasks of a group for which it returns zero although the first was refused and keeps its value |
| Priority.SucceedsWhenAllAccepted | HW2_APES/PROBLEM5/system_call/sys.c:250-299 | With hooks that never answer "no such process": exactly when some task was selected and all were accepted |
| Priority.SetThenGet | HW2_APES/PROBLEM5/system_call/sys.c:302-371 | Then the same selector reads back as 20 minus the clamped value |
| SharedMemory.OrderedInEveryRun | HW4_APES/PROBLEM2/ipc_shared_memory_thread/shared_memory.c:140-304 | In every interleaving and for each field: the k-th acknowledgement has index k or more, the j-th message j or less, neither sequence decreases |
| SharedMemory.NextKeepsInv | HW4_APES/PROBLEM2/ipc_shared_memory_thread/shared_memory.c:161-191 | Every step of either thread, and the signal, keeps the counts of sent, taken and lost flags, the slots' contents and the logs in step |
| SharedMemoryProgress.OnlyMessagesLogged | HW4_APES/PROBLEM2/ipc_shared_memory_thread/shared_memory.c:163-166 | If thread2 starts after thread1's first message is complete, every entry it logs is from a message |
| SharedMemoryProgress.SignalSeenExactly | HW4_APES/PROBLEM2/ipc_shared_memory_thread/shared_memory.c:141-141 | The flag is up exactly once the signal has come, and stays up |
| SharedMemoryProgress.NoNewRound | HW4_APES/PROBLEM2/ipc_shared_memory_thread/shared_memory.c:141-149 | After the signal each thread completes at most the round it is in |
| SharedMemoryProgress.SignalEndsBoth | HW4_APES/PROBLEM2/ipc_shared_memory_thread/shared_memory.c:168-179 | After the signal nobody is left waiting: a run can only end with both threads finished |
| SharedMemoryProgress.WorkIsBounded | HW4_APES/PROBLEM2/ipc_shared_memory_thread/shared_memory.c:140-304 | Every run makes a bounded number of moves other than idle looks at the flag |
| SharedMemoryProgress.OverExactly | HW4_APES/PROBLEM2/ipc_shared_memory_thread/shared_memory.c:168-179 | Without a signal a run can only end with both threads finished or with thread1 waiting after thread2 has exited |
| SharedMemoryProgress.OutcomeExactly | HW4_APES/PROBLEM2/ipc_shared_memory_thread/shared_memory.c:168-191 | It ends finished exactly when no flag was lost; thread1 has logged all acknowledgements but as many as were lost |
| SharedMemoryProgress.StuckExactly | HW4_APES/PROBLEM2/ipc_shared_memory_thread/shared_memory.c:168-179 | Thread1 can wait forever exactly when the flag is unset and thread2 has exited or is about to |
| SharedMemoryProgress.LostWakeUpExactly | HW4_APES/PROBLEM2/ipc_shared_memory_thread/shared_memory.c:297-303 | It can be left waiting exactly when there is more than one message |
| SharedMemoryProgress.Interleave | HW4_APES/PROBLEM2/ipc_shared_memory_thread/shared_memory.c:140-304 | The two loops under any scheduler end, with complete message logs and acknowledgement logs short by the flags lost |
| Pipes.ReadNext | HW4_APES/PROBLEM2/ipc_pipes_thread/pipes.c:275-278 | A read that finds any byte finds a whole record, the next of the sender's table |
| Pipes.Written | HW4_APES/PROBLEM2/ipc_pipes_thread/pipes.c:160-163 | A write of a table's worth of bytes, whatever lies beyond the table, leaves the next records in place |
| Pipes.WriteBeginsWithRecord | HW4_APES/PROBLEM2/ipc_pipes_thread/pipes.c:160-165 | In any state a write waits for room for a whole table, and appends that much, the next record first |
| Pipes.ReadConserves | HW4_APES/PROBLEM2/ipc_pipes_thread/pipes.c:275-278 | In any state a read waits for some byte and moves a record's worth, or all there is, from the pipe to the log |
| Pipes.ReadsAreRecords | HW4_APES/PROBLEM2/ipc_pipes_thread/pipes.c:149-300 | In every interleaving, through pipes of any size, the k-th read in each direction returns record k of the sender's table |
| Pipes.WaitsExactly | HW4_APES/PROBLEM2/ipc_pipes_thread/pipes.c:160-171 | A read waits exactly for the other thread's first write, a write exactly while what was written and not read leaves no room |
| Pipes.FinishesExactly | HW4_APES/PROBLEM2/ipc_pipes_thread/pipes.c:149-300 | With room for one table and for N tables less N records no schedule gets stuck and some schedule finishes; with less room none finishes and some gets stuck |
| Pipes.TenRecordsNeed4320 | HW4_APES/PROBLEM2/ipc_pipes_thread/pipes.c:24-45 | For the program's ten records of 48 bytes some schedule finishes exactly when pipes hold 4320 bytes |
| Pipes.Exchange | HW4_APES/PROBLEM2/ipc_pipes_thread/pipes.c:149-300 | Under any scheduler, for pipes of any size, the two loops finish exactly under that condition, each having logged the other's whole table, and otherwise stop with a part of it |
| Queues.PingPong | HW4_APES/PROBLEM2/ipc_queues_thread/queues.c:137-299 | In every reachable state at most one message is queued, the rounds differ by at most one, logs are prefixes of the peer's table, and the threads are not stuck |
| Queues.NeverStuck | HW4_APES/PROBLEM2/ipc_queues_thread/queues.c:160-171 | Some thread can move until both have exited, and a message is only sent while both queues are empty |
| Queues.QueueRules | HW4_APES/PROBLEM2/ipc_queues_thread/queues.c:160-171 | In any state sends wait for room and append, receives wait for a message and log the one in front, and no queue overflows |
| Queues.RunKeepsInv | HW4_APES/PROBLEM2/ipc_queues_thread/queues.c:249-299 | The four counts of sent, received, answered and acknowledged messages stay in lockstep and say what each queue holds |
| Queues.Exchange | HW4_APES/PROBLEM2/ipc_queues_thread/queues.c:137-299 | Under any scheduler both loops finish, each having logged the other's whole table |
| CStrings.TotalOrder | HW3_APES/PROBLEM4/animal_lkm.c:106-107 | String comparison is a total order whose zero is equality |
| CStrings.DictionaryOrder | HW3_APES/PROBLEM4/animal_lkm.c:106-107 | It is the order of a dictionary: the first difference decides, and a prefix comes first |
| AnimalGroups.ExchangeSort | HW3_APES/PROBLEM4/animal_lkm.c:104-114 | The array ends up sorted and a permutation of the seed |
| AnimalGroups.GroupsOfSeed | HW3_APES/PROBLEM4/animal_lkm.c:131-145 | For every seed the names strictly ascend, each count is the name's multiplicity in the seed, every name is there, and writing out gives the sorted array |
| AnimalGroups.GroupsExpand | HW3_APES/PROBLEM4/animal_lkm.c:131-145 | Writing the groups of a sorted array out gives that array |
| AnimalGroups.ExpandedGroups | HW3_APES/PROBLEM4/animal_lkm.c:131-145 | Grouping what any strictly ascending groups write out gives those groups |
| AnimalGroups.KeptExactly | HW3_APES/PROBLEM4/animal_lkm.c:157-241 | The second list has exactly the animals of at least the count asked for and of the name asked for, as far as these are asked for, in order |
| AnimalGroups.BothFilters | HW3_APES/PROBLEM4/animal_lkm.c:157-168 | With both filters it is the type filter's choice from the count filter's, and has at most one animal |
| AnimalLists.ListAddTail | HW3_APES/PROBLEM4/animal_lkm.c:141-142 | The circular list with the element before its head |
| AnimalLists.ListDel | HW3_APES/PROBLEM4/animal_lkm.c:286-290 | The circular list without the element, wherever it was |
| AnimalLists.AnimalModule.BuildFirst | HW3_APES/PROBLEM4/animal_lkm.c:131-145 | A well-formed list of one fresh node per group, counted |
| AnimalLists.AnimalModule.CopyKept | HW3_APES/PROBLEM4/animal_lkm.c:157-233 | A well-formed list of fresh copies of what the filter keeps, the first list unchanged |
| AnimalLists.AnimalModule.CountNodes | HW3_APES/PROBLEM4/animal_lkm.c:170-174 | Walking a list counts its elements |
| AnimalLists.AnimalModule.Start | HW3_APES/PROBLEM4/animal_lkm.c:74-274 | Loading leaves two disjoint well-formed lists, the groups of the sorted seed and what the filters keep of them, with the total of both; the three other lists stay empty |
| AnimalLists.AnimalModule.Teardown | HW3_APES/PROBLEM4/animal_lkm.c:286-290 | Unlinks and frees every element in order, each while still allocated, and leaves an empty list |
| AnimalLists.AnimalModule.End | HW3_APES/PROBLEM4/animal_lkm.c:281-331 | Removing frees each linked node exactly once, as many as the total says, and leaves only the node that was never linked |

## Left out

- MergeSort.MySort: when a merge writes past its scratch array the model stops, because C gives the call no meaning from there; the temporary buffer that is never freed is not part of this model.
- MergeSort.MergeSort: is called on non-empty ranges only, as the source does; the sum of two indices does not wrap at these sizes.
- MemoryMapReach.PlanArrives: makes one call per differing member without a data limit, or when the limit has no say; how few calls do under a limit is not stated. `check_data_rlimit` is taken to bound heap plus data size.
- MemoryMapReach.ConnectedExactly: has the same capability, limit and mappings throughout a sequence of calls.
- Pipes.Exchange: a write waits for room for all of it and is not split, as POSIX has it for the 480 bytes of the programs' tables.
- SharedMemory.OrderedInEveryRun: treats the text of a message as one field, so torn text is not modelled.
- Subreaper.RunKeepsInherited: exit and the new parent of orphans are not modelled; fork inherits the flag also from a parent that is itself a subreaper.
- Rlimit.Signal.DoPrlimit: the processor timer it restarts and the id checks before it are inputs or left out; resource numbers are the generic ones.
- Priority.TaskList.SetPriority: the tasks are a list in the kernel's order, and a user without a record is taken to have no tasks.
- Pid namespaces, individual thread exit, and zombies, in the process-group model.
- Reference counts of user records, and locking throughout.
- Signals in the pipe and queue programs, message priorities, queues left over from an earlier run, log files, time stamps and sleeps.
- Allocation failure in the animal module, which the source does not check for.
- `sockets.c` (the queue protocol again), `BBG_pthread.c`, `cron.c`, `myfileIO.c`, the small kernel modules and the regression test: single loops and drivers that would only add easy members.
- The rest of `sys.c`: thin calls into kernel code that is not in the repository.
