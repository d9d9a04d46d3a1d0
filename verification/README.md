# Verified models of the Android tool shims and the apex installer

This project models the hand-written logic of the repository and proves what it promises: the FreeBSD
USB backend's slot table and completion dispatch, the two posix_spawn shims, the futex semaphore wait,
the property-list codec, the virtual USB directory index, the package installer, and a few C string and
bit routines. `dafny verify dfyconfig.toml` checks everything.

Code that updates state in place is a class or a method with loops; next to it stands a specification
function (a step of a machine, a fold, a table update), the method is proved to compute it, and the
properties are proved of the function. Concurrent code is a step machine: one action per critical
section, system call or atomic operation, and the theorems quantify over all runs.

## How the parts fit

| file | what it holds |
|---|---|
| `FsSlots.dfy`, `UsbDispatch.dfy`, `UsbAttribution.dfy` | slot allocator and drain of the USB backend; transfers as a step machine; when a transfer gets its own completion |
| `ActionList.dfy`, `Descriptors.dfy`, `CmakeActions.dfy`, `CmakeSpawn.dfy`, `CmakeReports.dfy`, `NdkActions.dfy` | file-action list, descriptor tables and the POSIX reference, the strict interpreter, its parent/child protocol, which lists leave it able to report, the lenient interpreter |
| `SemClockwait.dfy`, `SemMachine.dfy` | the packed semaphore word and its CAS loop; waits and posts as a step machine |
| `PropertyList.dfy`, `PropertyListLaws.dfy`, `PropertyListSpelling.dfy` | the list printer and parser; what they promise each other; what each writes and reads, character by character |
| `DirIndex.dfy` | directory listings and device descriptors of the virtual USB tree |
| `ArchivePaths.dfy`, `FileTree.dfy`, `Staging.dfy`, `ArchiveContents.dfy` | lexical path cleaning, a file tree, unpacking, and extract-then-rename; what archives unpack to and installations leave, told from the entries |
| `Manifest.dfy`, `Commands.dfy`, `Packages.dfy`, `PackageRuns.dfy`, `PackageSafety.dfy`, `PackageIntact.dfy`, `Installer.dfy` | the manifest list, commands as folds, package steps, runs of commands, which sets of packages are safe together, which requests keep manifest and contents together, and the methods |
| `VersionOrder.dfy`, `Strl.dfy`, `MountOptions.dfy`, `PrefixLength.dfy` | version comparison, bounded string copies, mount-option search, netmask length |

## What is assumed of the outside

- USB kernel: USB_FS_CLOSE always unbinds its index; USB_FS_OPEN of an open index answers EBUSY and
  otherwise grants at least the size asked for; a completion's status and length are written when it is
  handed over; closing an endpoint cancels what is in flight on it. USB_FS_MAX_BUFSIZE is a parameter.
  USB_FS_START may accept a transfer on an index that still has one in flight. A kernel that refuses it takes
  the in-flight half out of the condition of `UsbAttribution.OwnExactlyWhenQuiet`: then only completions that
  are queued and not handed over can be given to the wrong thread.
- Semaphore: only the posting rule of the packed word (add two, up to SEM_VALUE_MAX) is assumed of the
  poster, which is not in the repository. The futex call compares and falls asleep in one step.
- Processes: the parent's and the child's system calls interleave freely. What open() answers is a
  function of the action's position in the list, its path, flags and mode. errno values are those of Linux. The error pipe is read
  and written whole, and calls interrupted by a signal are retried and are not steps.
- Installer: the catalog entry, the downloaded archive, the answer to the replace prompt, the time and the
  texts of the two metadata files are inputs. RemoveAll and Rename are single steps that do not fail.
  The manifest file is loaded as it was saved and is kept apart from the tree of packages.

## Where the code and its reference differ

- `_fs_slot` treats endpoint address 0 as "free"; the table mirrors the kernel for all other endpoints, and
  after a call for address 0 exactly when no slot is free, the free one is big enough, or the kernel refuses
  (`FsSlots.MirrorKeptExactly`; `FsSlots.EndpointZeroBreaksMirror` is a concrete table). It reports NO_MEM when
  it is out of slots, and also when the kernel itself answers ENOMEM.
- A transfer left by timeout or hangup is not cancelled, so the next thread on that endpoint may be given
  its completion (`UsbDispatch.TimeoutMisattributes`). A transfer gets its own completion, whatever happens
  next, exactly when the kernel has no earlier one of its slot left at the moment it is started
  (`UsbAttribution.OwnExactlyWhenQuiet`).
- IEEE Std 1003.1-2017 closes the target of an open action first. The CMake shim opens a scratch descriptor
  and duplicates it, which is the same exactly when no open meets a full table
  (`CmakeActions.RunSucceedsExactly`, `CmakeActions.FullTableCannotReopen`).
- `posix_spawn` of the CMake shim can return 0 although the child failed, exactly when a file action took
  away the error pipe's descriptor before the failing step (`CmakeSpawn.SuccessIsHonestExactly`); which
  lists can do that is decided by the list and the descriptor table alone (`CmakeReports.ReportsExactly`).
  A return of 0 means that execve has succeeded exactly when the child holds the pipe until then
  (`CmakeSpawn.SuccessMeansExecutedExactly`). With a copy of the pipe made by a dup2 action the parent waits until
  the program itself ends, and only then (`CmakeSpawn.NeverStuckExactly`).
- The NDK shim's child goes on where the CMake shim's child stops: on closing a descriptor that is not open,
  on opening one out of range, and on a full table (`NdkActions.StrictRunExactly`).
- The property-list parser reads a C string, so a list with a NUL inside an element comes back cut
  (`PropertyListLaws.FormatThenParse`).
- A comment in `lib.rs` says the directory structure will always be flat; the code builds nested listings,
  and the model follows the code.
- `lib.rs` lists a device whose path leads through another device's path under a single entry; listings tell
  directories and devices apart exactly when there is no such pair (`DirIndex.KindsExactly`).
- `extract` unpacks beside the package directory, under its name with ".tmp" appended, onto whatever is there. A
  package that lies in the staging directory of another is swallowed by it, files and all, while its
  manifest entry stays; likewise a package inside another one is lost with it. Manifest and directories
  stay together in all runs over a set of packages exactly when the set has no such pair
  (`PackageSafety.SafeExactly`); for paths of the form "kind;version" that is when no path is another one with
  ".tmp" appended (`PackageSafety.SimpleSafeExactly`).
- The skeleton contains an empty `platform-tools`, so after a command that package's directory may be empty
  where there was nothing before; an installed one stays as it is (`PackageRuns.EnsureLeaves`,
  `PackageRuns.UnnamedStays`).
- `cmdInstall` replaces a package before it writes the metadata. If the new archive holds a directory called
  package.xml, the command fails with the new tree in place and the old manifest entry. Entries and trees come
  from one and the same request, in all runs, exactly when no such request follows one that binds its path
  (`PackageIntact.IntactExactly`).
- Tar entries that are symbolic links are created as they come, and later entries are written through them: a
  link "x/a" to a directory elsewhere followed by a file "x/a/f" puts that file outside. The containment
  theorems are about archives without links and do not hold with them.

## Model

| member | source | states |
|---|---|---|
| FsSlots.FromErrno | builder/android-sdk-custom/patches/misc/freebsd_usb.c:464-477 | which library error stands for which errno, both ways; any other errno is OTHER |
| FsSlots.SlotStepKeepsMirror | builder/android-sdk-custom/patches/misc/freebsd_usb.c:591-635 | a call for a nonzero endpoint keeps one slot per endpoint and the table equal to the kernel's open endpoints, also after a failed reopen; success is a slot bound to the endpoint with room for the clamped need |
| FsSlots.SlotStepFrame | builder/android-sdk-custom/patches/misc/freebsd_usb.c:591-635 | slots of other endpoints are untouched, and the worked slot changes only its binding |
| FsSlots.SlotStepFailures | builder/android-sdk-custom/patches/misc/freebsd_usb.c:607-630 | out of slots exactly when all four hold other endpoints (or the kernel says ENOMEM); otherwise the error is the kernel's; when a call fails at all, and what is left bound then; a slot that is big enough is returned with nothing done, a new endpoint gets the first free one |
| FsSlots.ClampIsNearest | builder/android-sdk-custom/patches/misc/freebsd_usb.c:619-622 | the size asked for is between 1 and the kernel's bound, and of those the nearest to the need |
| FsSlots.AsksExactly | builder/android-sdk-custom/patches/misc/freebsd_usb.c:604-627 | the kernel is asked to open exactly when no slot is big enough and one can be had: once, for that slot and endpoint, and that size |
| FsSlots.EndpointZeroBreaksMirror | builder/android-sdk-custom/patches/misc/freebsd_usb.c:599-602 | with endpoint address 0 both guarantees fail, on a concrete table |
| FsSlots.MirrorKeptExactly | builder/android-sdk-custom/patches/misc/freebsd_usb.c:591-635 | for every endpoint address: the mirror is kept unless a call for address 0 finds a free slot too small for it and the open is granted, and success is an open slot unless such a call finds one that is big enough |
| FsSlots.SlotRunKeepsMirror | builder/android-sdk-custom/patches/misc/freebsd_usb.c:591-635 | the mirror invariant holds after any sequence of calls |
| FsSlots.DrainedSlot | builder/android-sdk-custom/patches/misc/freebsd_usb.c:569-589 | after a drain a slot with completions in the queue is flagged with its own last one |
| FsSlots.UndrainedSlot | builder/android-sdk-custom/patches/misc/freebsd_usb.c:569-589 | a slot without a completion is left alone and no binding moves |
| FsSlots.HandlePriv.constructor | builder/android-sdk-custom/patches/misc/freebsd_usb.c:234-263 | opening sets up four free slots |
| FsSlots.HandlePriv.Scan | builder/android-sdk-custom/patches/misc/freebsd_usb.c:599-602 | the loop finds the bound slot, and failing that the first free one |
| FsSlots.HandlePriv.FsSlot | builder/android-sdk-custom/patches/misc/freebsd_usb.c:592-635 | the method computes the slot step on arrays and kernel |
| FsSlots.HandlePriv.Reopen | builder/android-sdk-custom/patches/misc/freebsd_usb.c:612-634 | a bound slot is closed and freed first; the table and the answer follow the kernel's answer |
| FsSlots.HandlePriv.Record | builder/android-sdk-custom/patches/misc/freebsd_usb.c:581-587 | one completion is dispatched to its own slot, an index out of range to none |
| FsSlots.HandlePriv.FsDrain | builder/android-sdk-custom/patches/misc/freebsd_usb.c:572-589 | the loop empties the queue into the table and reports whether the device is still there |
| FsSlots.HandlePriv.StartTransfer | builder/android-sdk-custom/patches/misc/freebsd_usb.c:657-688 | the first critical section: the transfer is started on the slot of its endpoint, with its length and the flag down, or the error of whichever call failed is returned |
| FsSlots.HandlePriv.TakeCompletion | builder/android-sdk-custom/patches/misc/freebsd_usb.c:713-722 | the second one: takes the slot's completion once; success with its length exactly when its status is 0, otherwise an I/O error |
| FsSlots.HandlePriv.PollRound | builder/android-sdk-custom/patches/misc/freebsd_usb.c:697-734 | one round of the wait: NO_DEVICE if the device is gone, otherwise the last completion of the slot if there is one, otherwise TIMEOUT if the time is up, otherwise another round |
| FsSlots.HandlePriv.Close | builder/android-sdk-custom/patches/misc/freebsd_usb.c:265-287 | closing leaves a mirrored kernel with nothing open |
| UsbDispatch.BeginKeeps | builder/android-sdk-custom/patches/misc/freebsd_usb.c:657-679 | allocating and preparing a slot keeps the dispatch invariant |
| UsbDispatch.DrainKeeps | builder/android-sdk-custom/patches/misc/freebsd_usb.c:577-588 | handing one completion over keeps it, whichever thread drains |
| UsbDispatch.TakeKeeps | builder/android-sdk-custom/patches/misc/freebsd_usb.c:713-722 | returning with a completion keeps it |
| UsbDispatch.EffectKeeps | builder/android-sdk-custom/patches/misc/freebsd_usb.c:637-735 | every step of every thread and of the kernel keeps it |
| UsbDispatch.RunKeeps | builder/android-sdk-custom/patches/misc/freebsd_usb.c:637-735 | so does every run; only timeouts and hangups taint slots |
| UsbDispatch.EveryReturnIsOwn | builder/android-sdk-custom/patches/misc/freebsd_usb.c:690-722 | in every interleaving a thread on a slot nobody abandoned returns the outcome of its own transfer: success with its length exactly if that ended with status 0, otherwise an I/O error; and no completion is consumed twice, on any slot |
| UsbAttribution.ReadyKeeps | builder/android-sdk-custom/patches/misc/freebsd_usb.c:667-669 | a slot being set up keeps its flag down until the transfer is started |
| UsbAttribution.SoleKeeps | builder/android-sdk-custom/patches/misc/freebsd_usb.c:569-735 | every step keeps a transfer the only live one of its slot while its thread waits, and its return its own |
| UsbAttribution.StaleTaken | builder/android-sdk-custom/patches/misc/freebsd_usb.c:577-588 | with an earlier transfer of the slot in flight or queued, some continuation gives its completion to the new thread |
| UsbAttribution.OwnExactlyWhenQuiet | builder/android-sdk-custom/patches/misc/freebsd_usb.c:657-735 | in any reachable state, a transfer about to start gets its own completion in every continuation, timeouts included, if and only if the kernel has no earlier transfer of the slot in flight or queued |
| UsbDispatch.OccurrencesOf | builder/android-sdk-custom/patches/misc/freebsd_usb.c:569-589 | a started transfer is in exactly one place, unless it was lost |
| UsbDispatch.StartedIsConserved | builder/android-sdk-custom/patches/misc/freebsd_usb.c:569-722 | without timeouts and hangups every started transfer is at each moment exactly one of in flight, queued, flagged, consumed, and nothing else is |
| UsbDispatch.TimeoutMisattributes | builder/android-sdk-custom/patches/misc/freebsd_usb.c:725-733 | a complete run in which a transfer left by timeout is reported to the next thread |
| SemClockwait.DecrementedValue | builder/android-ndk-custom/patches/bionic/sem_clockwait.h:27-45 | the masked, wrapping subtraction lowers the value field by one and keeps the shared bit |
| SemClockwait.AtomicUint.NdkSemDec | builder/android-ndk-custom/patches/bionic/sem_clockwait.h:38-49 | against any interference and spurious failures the result is the value at one instant of the call, from which exactly one was taken if it was positive |
| SemMachine.EffectKeeps | builder/android-ndk-custom/patches/bionic/sem_clockwait.h:38-92 | every atomic step keeps the balance of value, posts and decrements |
| SemMachine.PermitsAreConserved | builder/android-ndk-custom/patches/bionic/sem_clockwait.h:36-49 | in every run value = initial value + posts - permits of finished calls, never below 0, shared bit unchanged |
| SemMachine.ReturnsAreHonest | builder/android-ndk-custom/patches/bionic/sem_clockwait.h:51-92 | a decrement returns a positive value, and a wait returns 0, exactly when the call took one permit, and a wait returns -1 exactly when it took none |
| SemMachine.OnlyEndedGiveUp | builder/android-ndk-custom/patches/bionic/sem_clockwait.h:51-92 | in every run the waits that return -1 are exactly those given a bad clock or time, timed out or interrupted, in the order of those events |
| SemMachine.DecrementReturnsValue | builder/android-ndk-custom/patches/bionic/sem_clockwait.h:38-49 | a decrement returns the value it found and lowered by one, or one that was not positive |
| SemMachine.TriesAgain | builder/android-ndk-custom/patches/bionic/sem_clockwait.h:78-91 | a thread that is woken, refused or answered EAGAIN goes on with the load of another decrement |
| SemMachine.LeftAloneTakes | builder/android-ndk-custom/patches/bionic/sem_clockwait.h:51-92 | from any point inside a wait, with a positive value and no other thread stepping in, the call takes a permit and returns 0 within five steps |
| SemMachine.SleepsOnlyAtZero | builder/android-ndk-custom/patches/bionic/sem_clockwait.h:78-90 | the futex call can sleep exactly when the value is 0 at that instant |
| SemMachine.SleeperMissesNoPost | builder/android-ndk-custom/patches/bionic/sem_clockwait.h:78-90 | whatever is available while a thread sleeps was posted after it fell asleep |
| PropertyList.FormatValue | builder/android-sdk-custom/patches/misc/IncrementalProperties.sysprop.cpp:148-171 | the loop prints the list as specified |
| PropertyList.AppendElement | builder/android-sdk-custom/patches/misc/IncrementalProperties.sysprop.cpp:158-164 | its body appends one element, escaped |
| PropertyList.ReadToken | builder/android-sdk-custom/patches/misc/IncrementalProperties.sysprop.cpp:99-105 | the inner loop reads one element and stops at its comma or at the NUL |
| PropertyList.DoParseList | builder/android-sdk-custom/patches/misc/IncrementalProperties.sysprop.cpp:94-111 | the parser terminates within the C string and computes the specified list |
| PropertyListSpelling.PrintedSpelled | builder/android-sdk-custom/patches/misc/IncrementalProperties.sysprop.cpp:158-164 | an element prints as its characters in order, a backslash before each comma and backslash and nothing else |
| PropertyListSpelling.PlainText | builder/android-sdk-custom/patches/misc/IncrementalProperties.sysprop.cpp:158-164 | text without commas and backslashes prints as itself |
| PropertyListSpelling.FormatSpelled | builder/android-sdk-custom/patches/misc/IncrementalProperties.sysprop.cpp:148-171 | a list prints as its elements in order with one comma between two |
| PropertyListSpelling.ParseSpelled | builder/android-sdk-custom/patches/misc/IncrementalProperties.sysprop.cpp:94-111 | a string reads as the texts between its unescaped commas without the escaping backslashes, empty ones as absent |
| PropertyListLaws.FormatThenParse | builder/android-sdk-custom/patches/misc/IncrementalProperties.sysprop.cpp:94-171 | printing any list and reading the C string back gives the normal form of the list up to its first NUL |
| PropertyListLaws.RoundTripExactly | builder/android-sdk-custom/patches/misc/IncrementalProperties.sysprop.cpp:94-171 | it returns the list itself exactly when the list holds no NUL, no present element is empty and it is not one absent element |
| PropertyListLaws.CutFormat | builder/android-sdk-custom/patches/misc/IncrementalProperties.sysprop.cpp:148-171 | cutting the print at its first NUL is printing the cut list |
| PropertyListLaws.Reread | builder/android-sdk-custom/patches/misc/IncrementalProperties.sysprop.cpp:94-171 | the two routines one after the other compute that round trip |
| PropertyListLaws.FormatCollisions | builder/android-sdk-custom/patches/misc/IncrementalProperties.sysprop.cpp:148-171 | two lists print alike exactly when they have the same normal form |
| PropertyListLaws.OnlyCollision | builder/android-sdk-custom/patches/misc/IncrementalProperties.sysprop.cpp:148-171 | with nonempty elements the only collision is the absent singleton with the empty list |
| PropertyListLaws.FormatNulFree | builder/android-sdk-custom/patches/misc/IncrementalProperties.sysprop.cpp:148-171 | the print is NUL-free exactly when the elements are |
| PropertyListLaws.LoneBackslash | builder/android-sdk-custom/patches/misc/IncrementalProperties.sysprop.cpp:101-107 | only a lone backslash reads as one absent element |
| PropertyListLaws.ReadPrintRead | builder/android-sdk-custom/patches/misc/IncrementalProperties.sysprop.cpp:94-171 | reading a C string, printing and reading again gives the same list exactly for the other strings |
| PropertyListLaws.ElementCount | builder/android-sdk-custom/patches/misc/IncrementalProperties.sysprop.cpp:94-111 | a nonempty string has one more element than commas preceded by an even run of backslashes |
| ActionList.FileActions.Append | builder/cmake-custom/patches/cmake/android_compat.h:62-71 | appending keeps head, tail and links well formed and adds the action at the end |
| CmakeActions.AddOpen | builder/cmake-custom/patches/cmake/android_compat.h:79-87 | adds an open action, or nothing and ENOMEM |
| CmakeActions.AddClose | builder/cmake-custom/patches/cmake/android_compat.h:88-93 | adds a close action, or nothing and ENOMEM |
| CmakeActions.AddDup2 | builder/cmake-custom/patches/cmake/android_compat.h:94-99 | adds a dup2 action, or nothing and ENOMEM |
| CmakeActions.OpenBindsTarget | builder/cmake-custom/patches/cmake/android_compat.h:149-155 | open, dup2 and close through the lowest free descriptor bind the target directly and leave no scratch; when they fail, and with which errno |
| CmakeActions.StepMatchesReference | builder/cmake-custom/patches/cmake/android_compat.h:149-160 | each action succeeds exactly where the standard's does, except an open on a full table, and has the same effect |
| CmakeActions.StepErrno | builder/cmake-custom/patches/cmake/android_compat.h:149-160 | an action fails exactly with EMFILE for an open on a full table, then open()'s own errno, and EBADF for a descriptor that is not open or out of range |
| CmakeActions.StepTable | builder/cmake-custom/patches/cmake/android_compat.h:149-160 | the whole table after an action with its close-on-exec flags: an opened file keeps its flag only if it came up at its target at once, dup2 clears it |
| CmakeActions.RunErrno | builder/cmake-custom/patches/cmake/android_compat.h:146-162 | a failing list stops at the first action that cannot be carried out, with that errno |
| CmakeActions.RunMatchesReference | builder/cmake-custom/patches/cmake/android_compat.h:146-162 | a successful run of the list is the standard's left fold |
| CmakeActions.RunSucceedsExactly | builder/cmake-custom/patches/cmake/android_compat.h:146-162 | the run succeeds exactly when the standard's fold does and no open meets a full table on the way |
| CmakeActions.SpareNeverFull | builder/cmake-custom/patches/cmake/android_compat.h:150-155 | which no open does if one free descriptor is named by no action, whatever the system answers |
| CmakeActions.FullTableCannotReopen | builder/cmake-custom/patches/cmake/android_compat.h:150-151 | on a full table it cannot reopen a descriptor the standard would have closed first |
| CmakeActions.Process.ApplyOne | builder/cmake-custom/patches/cmake/android_compat.h:149-160 | one round of the loop computes the strict step |
| CmakeActions.Process.ApplyActions | builder/cmake-custom/patches/cmake/android_compat.h:146-162 | the walk over the list computes the fold up to the first failure |
| CmakeSpawn.EffectKeeps | builder/cmake-custom/patches/cmake/android_compat.h:119-179 | every step of parent and child keeps what tables, pipe, history and return value say about each other |
| CmakeSpawn.ReturnTellsFate | builder/cmake-custom/patches/cmake/android_compat.h:123-179 | on every path both pipe ends are closed in the parent; a positive return after the fork is the errno of the child's first failing step (attributes, the action and its errno as in StepErrno, or execve), the child reaped and *pid untouched; 0 sets *pid |
| CmakeSpawn.ReturnsWithoutChild | builder/cmake-custom/patches/cmake/android_compat.h:123-135 | a call returns without a child exactly when pipe() or fork() fails, and returns that errno |
| CmakeSpawn.ProgramDescriptors | builder/cmake-custom/patches/cmake/android_compat.h:146-164 | the program gets exactly the descriptors open at the end of the list that are not close-on-exec, with the files of the standard's fold |
| CmakeSpawn.SuccessIsHonestExactly | builder/cmake-custom/patches/cmake/android_compat.h:108-179 | success implies that the child's steps succeed, in all runs without a kill, exactly when the pipe is still behind its descriptor at the first failing step |
| CmakeSpawn.SilentFailure | builder/cmake-custom/patches/cmake/android_compat.h:112-116 | otherwise some run returns 0 although a step failed and nothing was executed |
| CmakeReports.GuardsReport | builder/cmake-custom/patches/cmake/android_compat.h:146-164 | a list that keeps the pipe in place wherever a step can fail can report in every environment |
| CmakeReports.UnguardedFails | builder/cmake-custom/patches/cmake/android_compat.h:146-164 | for any other list some answers of open and execve make a failure that is not reported |
| CmakeReports.ReportsExactly | builder/cmake-custom/patches/cmake/android_compat.h:108-164 | so the child can report whatever happens exactly for the former lists, a condition on list and table alone |
| CmakeSpawn.SuccessMeansExecutedExactly | builder/cmake-custom/patches/cmake/android_compat.h:108-179 | a return of 0 means that execve has succeeded or the child was killed, in all runs exactly when the child holds the pipe up to execve or can report its failure |
| CmakeSpawn.NeverStuckExactly | builder/cmake-custom/patches/cmake/android_compat.h:167-178 | until the parent returns some step other than a kill or the program's own end is possible, in all reachable states exactly when the program does not get a copy of the pipe's write end |
| CmakeSpawn.LeakWaits | builder/cmake-custom/patches/cmake/android_compat.h:167-172 | otherwise some run has the program running and the parent waiting for its end |
| CmakeSpawn.LeftAloneIsSafe | builder/cmake-custom/patches/cmake/android_compat.h:146-164 | all three conditions hold for lists that do not name the pipe's write end |
| NdkActions.Add | builder/android-ndk-custom/patches/bionic/posix_spawn.h:191-250 | the add functions append the NDK node of the call, or refuse negative descriptors and failed allocations |
| NdkActions.ApplyOne | builder/android-ndk-custom/patches/bionic/posix_spawn.h:264-280 | one round of the loop computes the lenient step |
| NdkActions.ApplyActions | builder/android-ndk-custom/patches/bionic/posix_spawn.h:261-282 | the loop computes the lenient fold |
| NdkActions.OpenAgrees | builder/android-ndk-custom/patches/bionic/posix_spawn.h:265-272 | both interpreters bind the target of an open, whatever scratch descriptor each one got |
| NdkActions.LenientAgreesWithStrict | builder/android-ndk-custom/patches/bionic/posix_spawn.h:261-282 | wherever the strict interpreter succeeds the lenient one accepts the list and ends with the same descriptor-to-file table, up to the error pipe and close-on-exec flags |
| NdkActions.SpawnsAgree | builder/android-ndk-custom/patches/bionic/posix_spawn.h:350-363 | so one call started through either shim, or the inlined copy, gives its program the same files |
| NdkActions.LenientIgnoresClose | builder/android-ndk-custom/patches/bionic/posix_spawn.h:274-276 | the converse fails on closing a descriptor that is not open |
| NdkActions.LenientMatchesReference | builder/android-ndk-custom/patches/bionic/posix_spawn.h:264-280 | the lenient interpreter stops exactly where the open itself or a dup2 action fails, has the standard's effect where the standard succeeds, and none where it goes on regardless |
| NdkActions.LenientTable | builder/android-ndk-custom/patches/bionic/posix_spawn.h:264-280 | the whole table after an action with its close-on-exec flags |
| NdkActions.StrictStepExactly | builder/android-ndk-custom/patches/bionic/posix_spawn.h:264-280 | the strict interpreter gets through an action exactly when the lenient one does, a closed descriptor is open, and an opened one is in range with a descriptor free |
| NdkActions.StrictRunExactly | builder/android-ndk-custom/patches/bionic/posix_spawn.h:261-282 | the same for whole lists, each action judged on the table it meets |
| DirIndex.LessTotal | builder/android-sdk-custom/patches/termux/libtermuxadb/src/lib.rs:435-452 | the strcmp order is total and irreflexive on names |
| DirIndex.LessDecided | builder/android-sdk-custom/patches/termux/libtermuxadb/src/lib.rs:440-446 | names are ordered by their first difference, a front before what extends it |
| DirIndex.InsertMembers | builder/android-sdk-custom/patches/termux/libtermuxadb/src/lib.rs:495-500 | inserting adds the entry exactly when its name is not there yet |
| DirIndex.InsertSorted | builder/android-sdk-custom/patches/termux/libtermuxadb/src/lib.rs:438-452 | listings stay in strcmp order with one entry per name |
| DirIndex.UpdatedReaches | builder/android-sdk-custom/patches/termux/libtermuxadb/src/lib.rs:488-508 | after an update the device is reachable from the base by successive listings |
| DirIndex.UpdateKeeps | builder/android-sdk-custom/patches/termux/libtermuxadb/src/lib.rs:405-405 | the first lock of a delivery keeps the index: directory entries are keys, keys are listed by their parents, known devices stay reachable |
| DirIndex.InsertFdKeeps | builder/android-sdk-custom/patches/termux/libtermuxadb/src/lib.rs:406-406 | the second lock completes it |
| DirIndex.DeliveriesKeepIndex | builder/android-sdk-custom/patches/termux/libtermuxadb/src/lib.rs:392-418 | so it holds after any messages for devices below the base |
| DirIndex.ListingExactly | builder/android-sdk-custom/patches/termux/libtermuxadb/src/lib.rs:488-511 | after any messages a directory lists exactly the next components of the devices delivered below it |
| DirIndex.KindsExactly | builder/android-sdk-custom/patches/termux/libtermuxadb/src/lib.rs:495-504 | after any messages, every directory is listed as a directory and every device as a device exactly when no device path leads through another |
| DirIndex.LastDescriptorWins | builder/android-sdk-custom/patches/termux/libtermuxadb/src/lib.rs:405-406 | a device opens with the last descriptor sent for it |
| DirIndex.ClimbPanics | builder/android-sdk-custom/patches/termux/libtermuxadb/src/lib.rs:495-508 | the climb panics exactly when it does not meet the base with plain names on the way |
| DirIndex.ClimbFromDevice | builder/android-sdk-custom/patches/termux/libtermuxadb/src/lib.rs:488-511 | update_dir_map panics exactly for paths not strictly below the base, and otherwise every ancestor lists its next component and nothing else changes |
| DirIndex.DirStream.ReadDir | builder/android-sdk-custom/patches/termux/libtermuxadb/src/lib.rs:97-108 | one readdir yields the entry at the position and moves on, or null at the end |
| DirIndex.ReadAll | builder/android-sdk-custom/patches/termux/libtermuxadb/src/lib.rs:97-108 | reading until null yields each entry of the snapshot once, in order |
| DirIndex.Index.OpenDir | builder/android-sdk-custom/patches/termux/libtermuxadb/src/lib.rs:42-55 | opendir snapshots the sorted listing of a known directory and leaves others to libc |
| DirIndex.Index.UpdateDirMap | builder/android-sdk-custom/patches/termux/libtermuxadb/src/lib.rs:488-511 | the method computes the update |
| DirIndex.Index.ClimbUp | builder/android-sdk-custom/patches/termux/libtermuxadb/src/lib.rs:495-508 | its loop is the climb |
| DirIndex.Index.Deliver | builder/android-sdk-custom/patches/termux/libtermuxadb/src/lib.rs:399-407 | one message keeps the index valid; after a panic no descriptor is stored |
| ArchivePaths.StackCounts | cmd/apex/download.go:132-138 | cleaning a relative name leaves one ".." for each level the name rises above its start, then plain components |
| ArchivePaths.CleanRules | cmd/apex/download.go:132-138 | cleaning drops empty and "." components, a name with the ".." after it, and ".." at the root, wherever they stand |
| ArchivePaths.CleanNormal | cmd/apex/download.go:132-138 | and leaves plain components alone, and in a relative path ".."s before them |
| ArchivePaths.RefusedExactly | cmd/apex/download.go:132-138 | a name is refused exactly when it is absolute, rises above its start, or cleans to something that begins with two dots |
| ArchivePaths.AcceptedIsContained | cmd/apex/download.go:132-138 | an accepted name maps to the destination's components followed by plain ones |
| ArchivePaths.StripFirst | cmd/apex/download.go:140-148 | the loop computes the stripped name |
| ArchivePaths.StripFirstComponents | cmd/apex/download.go:140-148 | it drops the leading "." components and one more, and fails when none is left |
| FileTree.PlaceIsInside | cmd/apex/download.go:186-197 | the verdict on an entry does not depend on the destination, and a placed entry is inside it |
| FileTree.UnpackInside | cmd/apex/download.go:186-227 | one entry that is not a symbolic link changes nothing outside the destination and does inside it what it does in an empty tree |
| FileTree.UnpackAllInside | cmd/apex/download.go:175-228 | so does every state of unpacking an archive without symbolic links, onto any tree |
| ArchiveContents.UnpackExactly | cmd/apex/download.go:181-227 | one entry goes through unless its name is unsafe or it clashes with what is there; then its path holds its content, the directories it needs are there, and nothing else changes |
| ArchiveContents.UnpackAllExactly | cmd/apex/download.go:175-228 | entries without symbolic links unpack onto a tree exactly when no name is unsafe and no path has to be a file and a directory; then each path holds the last file placed there, a directory if an entry needs one, or what was there before |
| ArchiveContents.UnpackedExactly | cmd/apex/download.go:150-228 | so an archive unpacks exactly when it reads to its end and its entries are consistent, and to exactly what they ask for |
| Staging.ExtractStates | cmd/apex/download.go:103-130 | in every state of extract, whatever was at the staging directory, the destination holds the old tree, nothing, or all entries unpacked onto what was staged, and everything else is untouched; at the end the staging directory is gone; success exactly when the entries unpack and no file is above it |
| Staging.CleanWhole | cmd/apex/download.go:104-107 | with nothing staged before, that is the archive alone |
| ArchiveContents.WholeExactly | cmd/apex/download.go:103-130 | the same of what extract puts in place when something is staged already |
| Staging.FinishInside | cmd/apex/metadata.go:70-78 | writing the metadata files touches only the package and does there what it does on the tree alone |
| Manifest.FindIsLookup | cmd/apex/manifest.go:39-46 | find is lookup in the map the list stands for |
| Manifest.AddBinds | cmd/apex/manifest.go:48-54 | add binds the path and nothing else, whatever the list |
| Manifest.AddKeepsPlaces | cmd/apex/manifest.go:48-54 | no entry moves, and a new path comes last |
| Manifest.AddKeepsDistinct | cmd/apex/manifest.go:48-54 | and keeps paths distinct |
| Manifest.RemoveUnbindsExactly | cmd/apex/manifest.go:56-64 | remove is removal from the map exactly when the path occurs at most once |
| Manifest.RemoveUnbinds | cmd/apex/manifest.go:56-64 | so it is whenever paths are distinct |
| Manifest.RemoveKeepsDistinct | cmd/apex/manifest.go:56-64 | and it keeps them distinct |
| Manifest.Manifest.Find | cmd/apex/manifest.go:39-46 | the loop finds the first entry with the path |
| Manifest.Manifest.Add | cmd/apex/manifest.go:48-54 | overwrites that entry or appends |
| Manifest.Manifest.Remove | cmd/apex/manifest.go:56-64 | splices it out and says whether it was there |
| Packages.PkgDirIsJoin | cmd/apex/sdk.go:68-79 | the package directory of every path pkgDir accepts is what filepath.Join makes of the strings, with plain components |
| Packages.PkgDirExactly | cmd/apex/sdk.go:68-79 | accepted are paths with a semicolon, split at the first, and "platform-tools" |
| Packages.TmpOfAppends | cmd/apex/download.go:104-104 | the staging directory is that string with ".tmp" appended |
| Packages.TmpOfBeside | cmd/apex/download.go:104-104 | it lies beside the directory, never in it or above it |
| Packages.TmpOfInjective | cmd/apex/download.go:104-104 | different directories have different staging directories |
| Packages.InstallMidway | cmd/apex/commands.go:109-149 | in every state of an installation with nothing staged beside it the directory holds the old tree, nothing, or the whole archive with some of the metadata, and nothing else changes but the staging directory, which is gone at the end |
| PackageRuns.EnsureKeeps | cmd/apex/sdk.go:81-89 | making a skeleton directory keeps the invariant |
| PackageRuns.EnsureLeaves | cmd/apex/sdk.go:81-89 | and leaves each package directory alone, unless there was nothing at the one of that name: that one is then empty |
| PackageRuns.KeepsOthers | cmd/apex/commands.go:109-149 | no other independent package, and no other staging directory, notices an installation |
| PackageRuns.InstallKeeps | cmd/apex/commands.go:109-149 | installing, also when it fails, keeps distinct manifest paths, existing directories and an empty staging area |
| PackageRuns.UninstallKeeps | cmd/apex/commands.go:208-225 | so does uninstalling |
| PackageRuns.InstallResult | cmd/apex/commands.go:120-147 | an installation succeeds exactly when the archive unpacks and nothing is in the way, then leaves exactly the finished tree and binds the entry; otherwise it binds nothing |
| ArchiveContents.FinishedExactly | cmd/apex/commands.go:130-143 | the finished tree exists exactly for installable archives and holds their files, a source.properties unless the archive has one, and the new package.xml |
| ArchiveContents.InstallExactly | cmd/apex/commands.go:110-147 | one installation told from the request: a package to keep is left alone; otherwise success exactly when package and archive are sound and no file is in the way, then every path of the directory holds what the entries and the metadata say and the manifest binds version, checksum and time; a failure changes no entry |
| PackageRuns.UninstallResult | cmd/apex/commands.go:208-225 | uninstalling empties the directory and unbinds the path, or changes nothing if there is no directory; it succeeds either way |
| PackageRuns.BadPath | cmd/apex/commands.go:120-123 | a path that names no package ends either command and changes nothing |
| PackageRuns.EnsureResult | cmd/apex/sdk.go:81-89 | a skeleton directory is made with what is above it and nothing else, unless a file is in the way, which ends the command |
| Commands.RunStops | cmd/apex/commands.go:109-149 | rounds are made in order up to the first that fails, and nothing of those after it |
| PackageRuns.CommandProper | cmd/apex/commands.go:80-151 | every state of a command, and what it leaves, holds in each package directory the tree from before or what a step about the package left: the whole archive of an installation, nothing after an uninstallation, an empty skeleton directory only where there was nothing; on the way also nothing, if an installation is about the package |
| PackageRuns.RunKeeps | cmd/apex/commands.go:80-227 | between commands, over all runs over independent packages: distinct paths, every entry's directory exists, no staging directory survives |
| PackageRuns.RunLeaves | cmd/apex/commands.go:80-227 | and each package directory is as at the start or as one of the run's steps about it left it |
| PackageRuns.RunStatesProper | cmd/apex/commands.go:80-227 | the same of every state inside every command of a run, or nothing while the run installs the package |
| PackageRuns.UnnamedStays | cmd/apex/commands.go:80-227 | over all runs a package that is there and that no step installs or uninstalls keeps its tree, skeleton directories included |
| PackageSafety.NestedLost | cmd/apex/commands.go:217-220 | uninstalling a package loses the directory of one that lies in it, but not its manifest entry |
| PackageSafety.StagedLost | cmd/apex/download.go:104-129 | installing a package loses the directory of one that lies in its staging directory, keeps that one's manifest entry, and mixes its files into its own directory |
| PackageSafety.SafeExactly | cmd/apex/commands.go:80-227 | for any set of packages that are neither the root nor above it: all runs keep manifest and directories together, and all runs leave in each directory only the old tree or what a step about it left, if and only if no package lies in another one or in the staging directory of one |
| PackageSafety.SimpleSafeExactly | cmd/apex/sdk.go:68-79 | for paths "kind;version" that is if and only if no path of the set is another one with ".tmp" appended |
| PackageIntact.SpoilsExactly | cmd/apex/metadata.go:66-78 | an archive that unpacks cannot be finished exactly when it holds a directory called package.xml |
| PackageIntact.InstallIntact | cmd/apex/commands.go:109-149 | an installation, also a failing one, keeps each manifest entry together with the tree of the same request, if no request clashes with another |
| PackageIntact.ClashSpoils | cmd/apex/commands.go:130-143 | two clashing requests leave the entry of the first over the unfinished archive of the second |
| PackageIntact.IntactExactly | cmd/apex/commands.go:80-227 | in all runs of a set of requests over independent packages every entry and the tree in its directory come from one and the same request, if and only if no request that cannot be finished, and is not skipped as the installed version, is for a path another one binds |
| Installer.ExtractEntry | cmd/apex/download.go:181-227 | one round: strip, sanitize, unpack at the sanitized string's components |
| Installer.ExtractEntries | cmd/apex/download.go:150-228 | the entry loop passes through the specified states and stops at the first error |
| Installer.Settle | cmd/apex/download.go:121-129 | the staged tree goes into place or away |
| Installer.ExtractTo | cmd/apex/download.go:103-130 | extract passes through the states that ExtractStates describes |
| Installer.WriteMetadata | cmd/apex/metadata.go:70-78 | source.properties is kept if the archive has it, package.xml is always written |
| Installer.InstallPackage | cmd/apex/commands.go:110-148 | one round of the install loop has the specified effect on tree and manifest, for every path |
| Installer.UninstallPackage | cmd/apex/commands.go:209-224 | one round of the uninstall loop likewise |
| Installer.EnsureTree | cmd/apex/sdk.go:81-89 | the skeleton loop likewise |
| Installer.InstallAll | cmd/apex/commands.go:109-149 | the install loop is the fold of its rounds up to the first error |
| Installer.UninstallAll | cmd/apex/commands.go:208-225 | the uninstall loop is the fold of its rounds up to the first error |
| Installer.RanKeeps | cmd/apex/commands.go:80-227 | whatever such a command leaves is good again, if its packages are independent |
| Installer.Install | cmd/apex/commands.go:95-150 | the command is skeleton then packages, and stops after the skeleton if catalog or license is missing; a good store stays good |
| Installer.Uninstall | cmd/apex/commands.go:196-227 | the command is the fold of its rounds; a good store stays good |
| VersionOrder.Greater | cmd/apex/commands.go:263-272 | the loop decides lexicographic order |
| VersionOrder.Decided | cmd/apex/commands.go:266-271 | the first difference alone decides, in both directions |
| VersionOrder.GreaterNumberWins | cmd/apex/commands.go:266-270 | at the first different number the greater one wins, whatever follows |
| VersionOrder.PrefixIsBelow | cmd/apex/commands.go:271-271 | a proper prefix is smaller |
| VersionOrder.Trichotomous | cmd/apex/commands.go:262-272 | of two different versions exactly one is greater |
| VersionOrder.Transitive | cmd/apex/commands.go:262-272 | the order is transitive |
| VersionOrder.Irreflexive | cmd/apex/commands.go:271-271 | no version is greater than itself |
| Strl.StrlCpy | builder/android-sdk-custom/patches/misc/strl_compat.h:25-40 | leaves the cut and terminated string in the buffer, nothing else changed, and returns the source's length |
| Strl.CopyFront | builder/android-sdk-custom/patches/misc/strl_compat.h:29-33 | its first loop |
| Strl.ScanOn | builder/android-sdk-custom/patches/misc/strl_compat.h:36-37 | its last loop |
| Strl.StrlCat | builder/android-sdk-custom/patches/misc/strl_compat.h:42-61 | appends what fits, and returns the bounded length plus the source's length |
| Strl.Skip | builder/android-sdk-custom/patches/misc/strl_compat.h:48-49 | its first loop finds the end of the buffer's string or the bound |
| Strl.Append | builder/android-sdk-custom/patches/misc/strl_compat.h:52-60 | its second loop |
| Strl.CopyThenAppend | builder/android-sdk-custom/patches/misc/strl_compat.h:25-61 | the two together leave the first n-1 characters of the concatenation, touch nothing at or beyond n, and signal truncation exactly when it happened |
| Strl.CopyAndAppend | builder/android-sdk-custom/patches/misc/strl_compat.h:25-61 | so do the two routines called one after the other on one buffer |
| MountOptions.BoundaryIsMatch | builder/android-sdk-custom/patches/misc/host_compat.h:399-402 | the test made at an occurrence is token matching |
| MountOptions.HasMntOpt | builder/android-sdk-custom/patches/misc/host_compat.h:394-408 | terminates with the first place where an option starts and the searched text fits, up to "=", a comma or the end, and with None exactly when there is none |
| MountOptions.FirstFitSpelled | builder/android-sdk-custom/patches/misc/host_compat.h:394-408 | in parts of the string: the option stands at the answer, and nowhere before it, after the front or a comma and before "=", a comma or the end |
| MountOptions.FirstFitIsFirstMatch | builder/android-sdk-custom/patches/misc/host_compat.h:394-408 | for a single option that is the first comma-separated token that equals it or gives it a value |
| PrefixLength.LeadingIsUnique | builder/android-sdk-custom/patches/bsd-compat/network_interface_bsd.cc:43-49 | a byte is determined by having j leading ones and then zeros |
| PrefixLength.RestZero | builder/android-sdk-custom/patches/bsd-compat/network_interface_bsd.cc:45-49 | shifting out leading ones leaves zero only for such bytes |
| PrefixLength.ShiftOut | builder/android-sdk-custom/patches/bsd-compat/network_interface_bsd.cc:44-48 | the inner loop counts them, with byte arithmetic |
| PrefixLength.PrefixIsMade | builder/android-sdk-custom/patches/bsd-compat/network_interface_bsd.cc:35-57 | contiguous masks are exactly those mask construction makes |
| PrefixLength.ToPrefixLength | builder/android-sdk-custom/patches/bsd-compat/network_interface_bsd.cc:35-57 | the checks pass exactly on contiguous masks, and the result is then the prefix length modulo 256, so the prefix length itself up to 31 bytes |

## Left out

- EveryReturnIsOwn: says nothing about slots some thread left by timeout or hangup; OwnExactlyWhenQuiet does. Both assume one transfer in flight per endpoint.
- SleeperMissesNoPost: safety only; that a sleeper is woken depends on the poster's futex wake, which is not in the repository.
- SpawnsAgree: descriptors and files only; the two shims' close-on-exec flags are stated apart (StepTable, LenientTable) and not compared.
- DoParseList: the list of optional strings; the other element types are scalar parsers of the standard library.
- UnpackInside: not for symbolic links; resolving paths through links is outside the model, and containment fails with them.
- UnpackAllInside: not for archives with symbolic links, for the same reason.
- ExtractStates: not for archives with symbolic links, for the same reason.
- ExtractEntry: the symbolic-link case of the switch is absent, and making an entry's parent directories and writing its file count as one state.
- ExtractEntries: the symbolic-link case of its rounds is absent.
- RunKeeps: failures of RemoveAll, Rename, the manifest file and the metadata writes on a full disk are not modelled; a staging directory left by a crash is covered by ExtractStates but not by the run theorems.
- SafeExactly: packages whose directory or staging directory is the root or above it, and packages in the installer's own ".apex" directory, are not considered: they would take the manifest file with them.
- StrlCpy: source and destination do not overlap, as the C contract demands.
- Control transfers, device enumeration and configuration of the USB backend: error plumbing around single ioctls.
- The wait for a slice of at most 50 ms in poll and the timeout clock: a waiting thread may look, or give up, at any time.
- Signal masks, process groups, user ids and scheduling in the spawn attributes; the search of PATH in posix_spawnp.
- Relative or non-canonical device paths, names longer than 255 bytes, the serial-number map and the socket of the directory index.
- Archive decoding, xz, checksums, downloads, progress output, prompts, catalog and license handling.
- The lexing of version strings into numbers by Sscanf, and the choice among several newer versions in the update command.
- Metadata texts, JNI headers, build scripts, and the other compatibility wrappers of the repository.
