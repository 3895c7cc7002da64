# UefiToolsPkg: models and proofs

Dafny models of the parts of UefiToolsPkg that keep state, walk untrusted data or
promise something over many boots, with proofs of those promises. Check everything
with `dafny verify dfyconfig.toml`.

| what | files |
|---|---|
| the crash-tolerant reboot counter, `RebootTest.c` | `RebootRecord`, `RebootFirmware`, `RebootStore`, `RebootTest`, `RebootCommands`, `RebootRuns` |
| the shell-only reboot counter, three `.nsh` scripts | `RebootShell`, `RebootShellRuns`, `RebootSimulation` |
| the PCI topology forest, `PciTopology.c` | `PciTopology`, `PciForest`, `PciDrawing`, `PciSiblings`, `PciBridges`, `Sorting` |
| the runtime variable list, `RuntimeVarEditor.c` | `RuntimeVariables`, `RuntimeVarScreen`, `RuntimeVarKeys`, `RuntimeVarEditor`, `Sorting` |
| the ring observer, `NicDmaScan.c` and `Decode.c` | `NicDmaScan`, `NicDmaLayout`, `Decode` |
| the option ROM walker, `PciOptionRomInfo.c` | `PciOptionRom`, `ChainWalk` |
| the LoongArch page walk, `LoongArchMappingDump.c` | `PageWalk` |
| the three number parsers | `Parsers` |

Shared: `Bytes` (fixed-width integers and their little-endian bytes) and `Sequences`.

## How the systems are modelled

**The reboot counter.** `RebootFirmware.Firmware` is the machine under the program: the
state file as bytes of which a prefix is durable, and every firmware call as a method
that may fail. `RebootStore` and `RebootTest` are the program's functions, statement by
statement, over these calls. Power may go before any call; a cut drops any part of what
is not yet durable from the end of the file, and nothing after it has an effect. The
checksum is any function from bytes to 32-bit numbers. What is taken for granted:

- `Open` reports success and NOT_FOUND truthfully; any call may fail with any status.
  `Trouble` tells apart nothing failing, nothing failing but keys being pressed, failures
  where only `Open` answers NOT_FOUND, and failures where any call may.
- A read without error yields every byte asked for, up to the end of the file; a checksum
  without error is the checksum.
- `Delete` may claim success and leave the file, or fail and remove it. A file that is gone
  stays gone: a power cut does not bring it back.
- A write lands as a prefix of its data; with a status that is no error, the size it
  reports is what landed. Only a flush without error makes bytes durable.
- A file longer than a record is durable when a command begins (`Settled`): otherwise a
  power cut could make a record out of it that no one ever saved.

The log of events, the owner of the file and the targets of past starts are
instrumentation. That a key was pressed is logged by the machine, in `WaitForEvent`, so the
program cannot keep quiet about it. `RebootStore.View` is what the protocol proofs need of a disk: the
record it would load as. `RebootRuns` then talks about all sequences of commands.

**The shell protocol.** `RebootShell.Machine` runs the scripts line by line on typed
values. Power may go at any line, `set` and `set -d` may fail silently, `reset` may
return, and `set -v` may fail; `Faults` switches each of the four on or off.

**The topology.** `Tree` is the tree pass as a function of the parents alone; the
imperative printer, which marks devices and shares one array of flags over all depths,
is proved to print exactly that. `PciForest`, `PciDrawing` and `PciSiblings` are about `Tree`.

**The list editor.** With graphics the screen is a header and rows of cells (variable and
highlight), each drawn in its place. Without a graphics or font protocol it is the text
console: a sequence of printed lines that only a full redraw clears. `FullList` says what a
full redraw shows on either, and `WaitsOf` what is shown at each wait for a key, the
incremental redraw included. At each wait the editor records its real screen and model, and
is proved to record exactly that. The keys are a list given from outside; `RuntimeVarKeys`
says what each must have done by the next wait.

**The ring observer.** Every read of memory returns an arbitrary byte, so no proof can
rely on two reads agreeing. Memory logs each address with the byte it answered, and the
reports are stated of that log. The memory map is a buffer of bytes with a size and a stride,
as the firmware hands it out; its entries are read from there, 40 bytes each, as section 7.2
of the UEFI specification lays out EFI_MEMORY_DESCRIPTOR. `NicDmaLayout` builds maps, ring
descriptors and capabilities from their fields, and proves that they are read back.

**The page walk.** Shifts and masks are defined bit by bit on unbounded numbers.
`Translate` knows nothing of addresses and shifts: it follows a list of digits.

## What the proofs found

- `startup.nsh` reads Count back against Next, not against the number it meant to write.
  If `set -v` fails while a Next from an earlier `startup.nsh` of the same boot is left,
  a reset is requested with the count not advanced. `StaleNextExact` says exactly when the
  count is sure to advance, `BoundExact` exactly when the bound on requests is sure to hold,
  and `StaleNextBreaksBound` is a run with three requests and Count 2. Line 101 of
  `Scripts/RebootTestShell/README.md` says that a failed variable write does not request
  the next reset; the model follows the script. Started once per boot by the shell, as
  deployed, the script keeps the bound without any condition (`AutomaticSafety`, `RunBoots`).
- `arm.nsh` has the same weakness in NewType. After an arming for cold resets that failed in
  this boot, an arming for warm ones whose `set -v` fails arms, and requests, cold ones
  (`StaleTypeArmsOther`). `TypeExact` gives the condition.
- `RebootTest stop`, `continue` and `status` take NOT_FOUND from any call as a missing file.
  If a call other than `Open` ever answers it, stop reports success with an active record
  still on disk, and status reports that there is none. `AnswersExact` shows for each of the
  three that nothing else makes the answer wrong.
- In the text console of `RuntimeVarEditor`, which the repository's README.md:256-258 offers
  where graphics or fonts are missing, an arrow key does not redraw the two rows: text is
  printed and never placed (`RuntimeVarEditor.c:143-146`), so the header and the rows appear
  once more below the old list, which still shows the old selection. `ConsoleGoesWrong` is
  such a run: two variables and one Down key. `CoherentExactly`: the list on the screen is
  that of a full redraw at every wait, for all lists, keys and answers, if and only if there
  are graphics or exactly one row is visible, where every move scrolls. The console without
  graphics output has sixteen rows, so there it fails.
- Bridges without bus numbers (secondary and subordinate 0) become each other's parents
  (`UnconfiguredBridgesCycle`); the orphan pass then still lists every device once.
- In `PrintEfiRomHeader` the "truncated" branch, and in `RveLoadVariables` the branch that
  skips names of more than 512 characters, cannot be reached.
- A capability chain that ends never needs more than the 48 steps `PowerD0` allows.

## Model

| member | source | states |
|---|---|---|
| `RebootRecord.DecodeEncode` | Applications/RebootTest/RebootTest.c:30-41 | every field of the packed 24-byte record lies at its offset and is read back from its bytes |
| `RebootRecord.Held` | Applications/RebootTest/RebootTest.c:249-278 | a disk holds a record exactly if LoadState's verdict is success, and every record it can hold is in range: known signature and version, completed within target, below it while active |
| `RebootRecord.AcceptedBytes` | Applications/RebootTest/RebootTest.c:249-278 | byte by byte: a file is accepted exactly if it has 24 bytes, begins with RBT1 and version 1, its last four bytes are the checksum of the others followed by four zeros, and the numbers at their offsets are in the documented ranges |
| `RebootRecord.VerdictIs` | Applications/RebootTest/RebootTest.c:218-278 | without failures, which status a file gets: missing, a wrong checksum, or compromised |
| `RebootRecord.SealedPrefix` | Applications/RebootTest/RebootTest.c:298-304 | of all prefixes of a record sealed with its checksum over the zeroed field, LoadState accepts only the whole one, and then reads back every field |
| `RebootRecord.TruncatedRecord` | Applications/RebootTest/RebootTest.c:233-254 | losing bytes from the end of a file leaves the verdict as it was or makes the file compromised |
| `RebootStore.CalculateStateCrc32` | Applications/RebootTest/RebootTest.c:174-194 | the checksum is that of the record with a zeroed field, and the record is left as it was |
| `RebootStore.ReadStateFile` | Applications/RebootTest/RebootTest.c:214-247 | success hands out the whole file and only files of at most 24 bytes; without failures the status tells missing, longer and readable files apart |
| `RebootStore.CheckRecord` | Applications/RebootTest/RebootTest.c:249-278 | success exactly for bytes that make up an acceptable record; without failures the same status LoadState documents for each defect |
| `RebootStore.LoadState` | Applications/RebootTest/RebootTest.c:196-279 | leaves the disk alone; a success on a powered machine means the disk was acceptable and the result is what it holds |
| `RebootStore.DeleteState` | Applications/RebootTest/RebootTest.c:366-434 | a success on a powered machine means the file is gone, although Delete itself may lie; whatever fails, the file is as before or gone |
| `RebootStore.WriteStateFile` | Applications/RebootTest/RebootTest.c:340-363 | the new file never holds anything but a prefix of the record; after a success all of it, durably |
| `RebootStore.SaveState` | Applications/RebootTest/RebootTest.c:281-364 | the disk ends up with the old file, none, or a prefix of the new record; after a success with the new record, durably |
| `RebootStore.ReachedHeld` | Applications/RebootTest/RebootTest.c:309-363 | wherever a save stops, the disk loads as the old record, as the new one, or is refused as missing or compromised |
| `RebootStore.CrashConsistency` | Applications/RebootTest/RebootTest.c:281-364 | after any failures and a power cut then or later, the disk loads as exactly the old record, exactly the new one, or is refused; never a mixture |
| `RebootStore.SavedIsDurable` | Applications/RebootTest/RebootTest.c:349-363 | after a successful save no later power cut keeps LoadState from yielding the new record with all its fields |
| `RebootStore.LoadSeen` | Applications/RebootTest/RebootTest.c:196-279 | in terms of the record on disk: loading changes nothing and a success yields the record held |
| `RebootStore.DeleteSeen` | Applications/RebootTest/RebootTest.c:366-434 | in terms of the record on disk: after a success none is held, otherwise the old one or none |
| `RebootStore.SaveSeen` | Applications/RebootTest/RebootTest.c:281-364 | in terms of the record on disk: the old one, none or the new one; after a success the new one |
| `RebootTest.WaitForResetOrKey` | Applications/RebootTest/RebootTest.c:436-488 | waiting changes nothing on disk and requests nothing; a key that the machine notes is always answered with aborted, and nothing else is noted |
| `RebootTest.RequestReset` | Applications/RebootTest/RebootTest.c:520 | at most one reset is requested, for the record given, and exactly one if the call returns |
| `RebootTest.ResetSystemForTest` | Applications/RebootTest/RebootTest.c:490-531 | a key that the machine notes leads to saving the stopped record and no request; otherwise one request, after which the stopped record is saved and the status is an error |
| `RebootTest.ResetMeans` | Applications/RebootTest/RebootTest.c:490-531 | one request or one key at most; the disk holds what it held, the stopped record or nothing that loads; success is never returned |
| `RebootTest.StrEqualsIgnoreCase` | Applications/RebootTest/RebootTest.c:68-102 | true exactly for strings that agree after lowering ASCII letters |
| `RebootTest.CaseIgnored` | Applications/RebootTest/RebootTest.c:68-102 | lowering letters identifies exactly the strings that differ in the case of ASCII letters only |
| `RebootTest.ParseStart` | Applications/RebootTest/RebootTest.c:545-588 | accepts exactly 3 to 5 arguments with a count of 1 to 1000000, warm or cold in any case, and a delay of 1 to 60 seconds, and yields the active record they ask for |
| `RebootCommands.OrderReadBack` | Applications/RebootTest/RebootTest.c:545-588 | a command line built from a count, a choice of warm or cold and a delay is parsed as the record of exactly those: cold is reset type 0, warm and no choice 1, no delay three seconds |
| `RebootTest.StartTest` | Applications/RebootTest/RebootTest.c:533-602 | the reset is requested only after the active record with no completed cycles was saved; a failed save is reported; bad arguments are refused and change nothing |
| `RebootTest.SaveProgress` | Applications/RebootTest/RebootTest.c:633-654 | the advance is noted as landed exactly if the disk then holds it, even if the save reports a failure |
| `RebootTest.AdvanceTest` | Applications/RebootTest/RebootTest.c:633-661 | one more completed cycle is saved first; then PASS with the test inactive when the target is reached, else one reset; nothing after a failed save |
| `RebootTest.ContinueTest` | Applications/RebootTest/RebootTest.c:604-662 | goes on only from an active record that loaded; a failed load is an error unless it is NOT_FOUND; success means no file or an inactive record, if only Open answers NOT_FOUND |
| `RebootTest.ShowStatus` | Applications/RebootTest/RebootTest.c:664-690 | reads only; success means no file or an acceptable one, if only Open answers NOT_FOUND |
| `RebootTest.StopTest` | Applications/RebootTest/RebootTest.c:692-725 | saves the inactive form of the record that loaded and requests nothing; success means no file or an inactive record, if only Open answers NOT_FOUND |
| `RebootTest.Invoke` | Applications/RebootTest/RebootTest.c:741-755 | each command on a machine switched on takes a step of the protocol, with the exit status that belongs to it; after a successful clear the file is absent |
| `RebootTest.ParseCommand` | Applications/RebootTest/RebootTest.c:736-759 | exactly the five names, in any case, are commands |
| `RebootTest.ShellAppMain` | Applications/RebootTest/RebootTest.c:727-762 | a usage error is refused and changes nothing; each of the five names, in any case, takes the step that belongs to it, and no other word any |
| `RebootTest.CommandMeans` | Applications/RebootTest/RebootTest.c:736-759 | start, continue, status, stop and clear stand for starting, continuing, showing, stopping and deleting; any other first argument is a usage error |
| `RebootRuns.StepKeeps` | Applications/RebootTest/RebootTest.c:727-762 | every command with any failures keeps the protocol's invariant between the record on disk and the log |
| `RebootRuns.RunKeeps` | Applications/RebootTest/RebootTest.c:727-762 | the invariant holds in every reachable state of every run |
| `RebootRuns.FiniteResets` | Applications/RebootTest/RebootTest.c:490-662 | over all runs: resets requested for a start never exceed its count, and each directly follows the successful save of an active, acceptable record with more completed cycles than any earlier request |
| `RebootRuns.LeftoverResets` | Applications/RebootTest/RebootTest.c:633-661 | over all runs: a record of unknown origin on the first disk is good for fewer requests than it has cycles left |
| `RebootRuns.ExactProgress` | Applications/RebootTest/RebootTest.c:633-648 | over all runs: PASS is printed for a start only after exactly as many of its continues reached the disk as resets were asked for |
| `RebootRuns.KeyPreventsReset` | Applications/RebootTest/RebootTest.c:482-510 | over all runs: a key comes right after the save of the active record it belongs to, and is never followed by a request that was not saved for anew after it |
| `RebootRuns.Session` | Applications/RebootTest/RebootTest.c:727-762 | the program run on a machine, command line after command line, over any disk and any failures, goes through a run of the protocol for the commands named, from the first disk to the last; its log obeys the bounds on requests and the meaning of PASS |
| `RebootRuns.AnswersExact` | Applications/RebootTest/RebootTest.c:614-617 | the success of stop, and of continue, is sure to leave no active record, and that of status to tell exactly what is held, if and only if no call but Open answers NOT_FOUND |
| `RebootRuns.IdleUntilStart` | Applications/RebootTest/RebootTest.c:604-725 | from an inactive, missing or rejected file nothing is requested or passed, whatever fails, until another start |
| `RebootRuns.StepInterrupted` | Applications/RebootTest/RebootTest.c:498-530 | a command in which a key is pressed, or a reset returns, ends with saving the stopped record; it requested nothing else, and its status is aborted, that of the failed save, or a device error |
| `RebootRuns.StoppedStaysStopped` | Applications/RebootTest/RebootTest.c:498-530 | a key that was pressed, or a reset that returned, ends the test if the stopped record can be saved: no more requests until another start; where no call fails a key always does, with aborted as the status |
| `RebootRuns.NoResetAfterClear` | Applications/RebootTest/RebootTest.c:749-755 | after a successful clear no reset is requested and no record appears until another start |
| `RebootRuns.AbsentUntilStart` | Applications/RebootTest/RebootTest.c:604-725 | no command but start makes a disk hold a record that held none |
| `RebootRuns.UndisturbedStart` | Applications/RebootTest/RebootTest.c:590-601 | without failures and keys, start saves the record and requests one reset |
| `RebootRuns.UndisturbedAdvance` | Applications/RebootTest/RebootTest.c:633-661 | without failures and keys, continue lands one cycle, then resets once or passes |
| `RebootRuns.UndisturbedRun` | Applications/RebootTest/RebootTest.c:533-662 | the whole log and disk after a start and k undisturbed continues |
| `RebootRuns.CyclesCount` | Applications/RebootTest/RebootTest.c:490-662 | that log holds k + 1 requests before the target is reached and exactly the target from then on |
| `RebootRuns.UndisturbedResets` | Applications/RebootTest/RebootTest.c:490-662 | an undisturbed run requests exactly as many resets as were asked for, one per boot |
| `RebootShell.NextState` | Scripts/RebootTestShell/startup.nsh:52-132 | the table of 19 rows is the successor for 1 to 19 and has no row for anything else |
| `RebootShell.Machine.Startup` | Scripts/RebootTestShell/startup.nsh:7-50 | anything but Active 1, both numbers in 1 to 20 and a known type is left alone; then the count decides between completing and another cycle |
| `RebootShell.Machine.Cycle` | Scripts/RebootTestShell/startup.nsh:52-157 | a reset is requested only after Count read back equal to Next, with one request at most; if it returns and deletion works, Active is gone; the branch without a next state is dead |
| `RebootShell.Machine.Complete` | Scripts/RebootTestShell/startup.nsh:159-171 | Active goes first and nothing else changes while it stays; all four go if deletion works; no request |
| `RebootShell.Machine.Stop` | Scripts/RebootTestShell/stop.nsh:4-26 | Active goes first and nothing else changes while it stays; all four go if deletion works; no request |
| `RebootShell.Machine.ArmParameters` | Scripts/RebootTestShell/arm.nsh:27-60 | either Active is gone or the old test is untouched, or all four variables read back with Active written last, the type being that of NewType |
| `RebootShell.Machine.Arm` | Scripts/RebootTestShell/arm.nsh:5-89 | a reset is requested only for a complete arming, of the type in NewType, which is the one asked for unless `set -v` failed; a failed arming leaves no active test with mixed parameters, and none at all if deletion works |
| `RebootShellRuns.ShellSafety` | Scripts/RebootTestShell/startup.nsh:48-169 | in every reachable state: if Active is 1, Target and Count come from one arming, the requests since then are at most Count, and Count is at most Target, at most 20; it needs the condition of BoundExact where `set -v` may fail |
| `RebootShellRuns.BoundExact` | Scripts/RebootTestShell/startup.nsh:134-149 | whatever fails, another cycle keeps those bounds if and only if Next is unset, or a number above the requests made and within Target |
| `RebootShellRuns.TypeSafety` | Scripts/RebootTestShell/arm.nsh:18-70 | in every reachable state: all resets since an arming, and those to come, are of the type it asked for; it needs the condition of TypeExact where `set -v` may fail |
| `RebootShellRuns.TypeExact` | Scripts/RebootTestShell/arm.nsh:18-46 | whatever fails, an arming keeps to the type asked for if and only if NewType is unset or already that type |
| `RebootShellRuns.ArmingMeans` | Scripts/RebootTestShell/arm.nsh:18-25 | without faults arming for warm, or without a word, requests a warm reset and arming for cold a cold one, with Count 1 and the count asked for as target; any other word changes nothing |
| `RebootShellRuns.StopMeans` | Scripts/RebootTestShell/stop.nsh:4-22 | after a stop whose deletions work all four variables are gone, and nothing is requested until another arming |
| `RebootShellRuns.StaleTypeArmsOther` | Scripts/RebootTestShell/arm.nsh:18-70 | a concrete run in one boot: a failed arming for cold, then an arming for warm that requests a cold reset |
| `RebootShellRuns.SuccessorExists` | Scripts/RebootTestShell/startup.nsh:131-132 | the branch for a count without a next state is never reached |
| `RebootShellRuns.RunBoots` | Scripts/RebootTestShell/startup.nsh:7-169 | the scripts run on a machine, boot after boot with anything typed in between: its variables go through a run of the protocol for these scripts, the bounds hold of them at the end, and the type if `set -v` can be relied on |
| `RebootShellRuns.AutomaticSafety` | Scripts/RebootTestShell/README.md:98-104 | the same bounds without any condition on the faults when startup.nsh runs once after power-on |
| `RebootShellRuns.StaleNextExact` | Scripts/RebootTestShell/startup.nsh:134-139 | a requested reset is sure to have the count advanced by one if and only if no other number was left in Next |
| `RebootShellRuns.StaleNextBreaksBound` | Scripts/RebootTestShell/startup.nsh:134-149 | a concrete run in which the third request is made with Count 2 |
| `RebootShellRuns.IdleUntilArm` | Scripts/RebootTestShell/startup.nsh:7-15 | without Active 1 nothing is requested until arm.nsh |
| `RebootSimulation.KindsOfCycles` | Applications/RebootTest/RebootTest.c:515-520 | the application's undisturbed cycles ask for one reset of the chosen kind each, up to the target |
| `RebootSimulation.UndisturbedKinds` | Applications/RebootTest/RebootTest.c:590-661 | trace, activity and completed cycles of the application, boot by boot |
| `RebootSimulation.UndisturbedShellRun` | Scripts/RebootTestShell/startup.nsh:48-169 | all variables and the trace of the shell protocol, boot by boot |
| `RebootSimulation.Simulation` | Scripts/RebootTestShell/startup.nsh:48-149 | undisturbed, with 1 to 20 asked for: both issue the same requests boot by boot, the shell's Count is one ahead of the completed cycles, and both go idle on the same boot |
| `Sorting.InsertInPlace` | Applications/PciTopology/PciTopology.c:138-145 | the shifting loop puts one element behind all that are not greater and keeps the rest in order |
| `Sorting.InsertionSort` | Applications/RuntimeVarEditor/RuntimeVarEditor.c:265-290 | the in-place sort of a prefix is the insertion sort of its contents; the rest is untouched |
| `Sorting.SortSorts` | Applications/PciTopology/PciTopology.c:126-147 | sorted, and a permutation, for any strict weak order |
| `Sorting.SortStable` | Applications/PciTopology/PciTopology.c:126-147 | elements of equal rank keep their order |
| `PciTopology.DeviceOrder` | Applications/PciTopology/PciTopology.c:100-124 | comparing locations is a strict weak order, decided by the first of segment, bus, device and function that differs |
| `PciTopology.SortDevices` | Applications/PciTopology/PciTopology.c:126-147 | the array becomes the stable sort of what it was, in ascending order of segment, bus, device and function, with the devices of each location in their old order |
| `PciTopology.SortedListing` | Applications/PciTopology/PciTopology.c:126-147 | the listing ascends by segment, then bus, then device, then function; for every location the devices at it are the same ones in the same order |
| `PciTopology.FindParent` | Applications/PciTopology/PciTopology.c:163-191 | the first bridge of the segment with the narrowest range over the bus; none exactly if no bridge covers it |
| `PciTopology.AssignParents` | Applications/PciTopology/PciTopology.c:149-195 | every device gets that bridge, and nothing but the parents changes |
| `PciTopology.HasChild` | Applications/PciTopology/PciTopology.c:197-214 | true exactly if some device has this parent |
| `PciTopology.LastChildIndex` | Applications/PciTopology/PciTopology.c:216-235 | the last device with this parent, if there is one |
| `PciTopology.LastRootInSegment` | Applications/PciTopology/PciTopology.c:237-256 | the last parentless device of the segment, if there is one |
| `PciTopology.PrintPrefix` | Applications/PciTopology/PciTopology.c:258-273 | column i is blank exactly if flag i is set |
| `PciTopology.PrintDeviceAt` | Applications/PciTopology/PciTopology.c:328-330 | prints the line of the device under its columns and marks that device only |
| `PciTopology.PrintSubtree` | Applications/PciTopology/PciTopology.c:314-349 | prints the subtree, marks exactly the devices it printed, leaves the flags of its ancestors alone, and never indexes past 32 flags |
| `PciTopology.PrintChildren` | Applications/PciTopology/PciTopology.c:342-348 | the children in order, each under the unchanged columns of its ancestors |
| `PciTopology.PrintChild` | Applications/PciTopology/PciTopology.c:345-347 | a child's subtree, marked last exactly if no later sibling exists |
| `PciTopology.PrintEntry` | Applications/PciTopology/PciTopology.c:467-475 | a header when the segment changes, and the tree below a root |
| `PciTopology.PrintTopology` | Applications/PciTopology/PciTopology.c:449-484 | prints the tree, then exactly the devices the tree left unmarked |
| `PciTopology.PrintOrphans` | Applications/PciTopology/PciTopology.c:478-483 | one line for every unmarked device, in order |
| `PciForest.RootDepthExact` | Applications/PciTopology/PciTopology.c:336-349 | depth is the first number of steps after which there is no parent |
| `PciForest.DepthOfAncestor` | Applications/PciTopology/PciTopology.c:344-347 | each step up lowers the depth by one |
| `PciForest.CountInSubtree` | Applications/PciTopology/PciTopology.c:314-349 | a subtree has exactly one line for each device whose chain passes its top at that depth, none for others |
| `PciForest.CountInTree` | Applications/PciTopology/PciTopology.c:466-476 | the tree pass has one line for each device with a root within 31 steps, none for others |
| `PciForest.TreeHasNoOrphans` | Applications/PciTopology/PciTopology.c:466-476 | the tree pass prints no orphan lines |
| `PciForest.EachDeviceOnce` | Applications/PciTopology/PciTopology.c:449-484 | for any parents, cycles included: exactly one line per device, in the tree exactly if a root is at most 31 steps up, else in the orphan list |
| `PciDrawing.ParentsReadBack` | Applications/PciTopology/PciTopology.c:314-349 | the parent of every drawn device is the device of the nearest earlier line one level up |
| `PciDrawing.LastChildIsLastSibling` | Applications/PciTopology/PciTopology.c:216-235 | having no later child of the same parent is being the last sibling |
| `PciDrawing.LastRootIsLastSibling` | Applications/PciTopology/PciTopology.c:237-256 | the last root of a segment is its last parentless device |
| `PciDrawing.SubtreeTruthful` | Applications/PciTopology/PciTopology.c:314-349 | under true columns a subtree's lines are all true |
| `PciDrawing.ColumnsReadBack` | Applications/PciTopology/PciTopology.c:258-273 | the number of columns is the depth, column i is blank exactly if the ancestor at depth i is the last of its siblings in the listing, and the corner marks exactly the last sibling in the listing |
| `PciSiblings.TreeOrder` | Applications/PciTopology/PciTopology.c:463-476 | of two devices with one parent, or two roots, the later one in the listing is never drawn first |
| `PciSiblings.SiblingsInOrder` | Applications/PciTopology/PciTopology.c:258-273 | siblings are drawn in the order of the listing |
| `PciSiblings.CornerReadsBack` | Applications/PciTopology/PciTopology.c:258-273 | the corner is on a line exactly if no later line of the drawing has a sibling of its device: one corner a group, on its final line |
| `PciDrawing.HeadersReadBack` | Applications/PciTopology/PciTopology.c:463-476 | one header per segment that occurs, in ascending order, and every tree line under the header of its own segment |
| `PciBridges.ParentIsBridgeBehind` | Applications/PciTopology/PciTopology.c:167-193 | with nested or disjoint ranges and distinct secondary buses, the parent is the one bridge whose secondary bus is the device's bus |
| `PciBridges.AssignedIsLinked` | Applications/PciTopology/PciTopology.c:172-174 | parents are devices of the listing and of the same segment |
| `PciBridges.DownwardIsAcyclic` | Applications/PciTopology/PciTopology.c:149-195 | if every bridge that counts has its bus below its secondary bus, parents are on lower buses and every chain ends |
| `PciBridges.ShallowBusIsDrawn` | Applications/PciTopology/PciTopology.c:336-339 | then devices on buses below 32 are always in the tree |
| `PciBridges.UnconfiguredBridgesCycle` | Applications/PciTopology/PciTopology.c:176-191 | two unconfigured bridges are each other's parents and neither is in the tree |
| `PciBridges.ReadyToDraw` | Applications/PciTopology/PciTopology.c:511-512 | after sorting and assigning, segments ascend and parents are devices of the same segment |
| `PciBridges.EveryDeviceOnce` | Applications/PciTopology/PciTopology.c:449-484 | with assigned parents, exactly one line per device |
| `PciBridges.ListedInOrder` | Applications/PciTopology/PciTopology.c:127-177 | sorting and assigning parents lists the devices in location order, those of each location as they came, unchanged but for parents and marks |
| `PciBridges.ShowTopology` | Applications/PciTopology/PciTopology.c:511-512 | the program's steps together list the devices in ascending order of segment, bus, device and function, those of each location as they came, and print each device exactly once; the printed tree meets the premises of the read-back properties |
| `RuntimeVariables.VariableOrder` | Applications/RuntimeVarEditor/RuntimeVarEditor.c:257-262 | comparing names is a strict weak order |
| `RuntimeVariables.Grow` | Applications/RuntimeVarEditor/RuntimeVarEditor.c:425-438 | twice the capacity and the same entries |
| `RuntimeVariables.NextName` | Applications/RuntimeVarEditor/RuntimeVarEditor.c:374-405 | the entry after the current one, none skipped or repeated over a growing buffer; a refused size means a name of more than 512 characters |
| `RuntimeVariables.ScanIsFirstWanted` | Applications/RuntimeVarEditor/RuntimeVarEditor.c:373-449 | a scan that ends well has the first (at most 2048) readable runtime variables; it fails only over a name that is too long |
| `RuntimeVariables.RveLoadVariables` | Applications/RuntimeVarEditor/RuntimeVarEditor.c:329-465 | success hands out the scanned variables sorted, in a list of 128 to 2048 doubled entries; an error hands out nothing |
| `RuntimeVariables.LoadedList` | Applications/RuntimeVarEditor/RuntimeVarEditor.c:443-460 | the list is a permutation of the first (at most 2048) readable runtime variables, in ascending order of names, where the first differing character decides, and those of each name in store order |
| `RuntimeVariables.WantedAre` | Applications/RuntimeVarEditor/RuntimeVarEditor.c:443 | wanted are exactly the readable variables whose attributes have bit 2 |
| `RuntimeVariables.RuntimeBit` | Applications/RuntimeVarEditor/RuntimeVarEditor.c:443 | that bit and none of the others makes a runtime variable |
| `RuntimeVariables.NameUpToHolds` | Applications/RuntimeVarEditor/RuntimeVarEditor.c:257-262 | a name that is not below another is the same or larger at the first difference |
| `RuntimeVariables.ShortNamesLoad` | Applications/RuntimeVarEditor/RuntimeVarEditor.c:376-405 | names of up to 512 characters never make a load fail |
| `RuntimeVarScreen.Normalized` | Applications/RuntimeVarEditor/RuntimeVarEditor.c:1245-1259 | the selection is valid and within the visible rows |
| `RuntimeVarScreen.TwoRowsAreEnough` | Applications/RuntimeVarEditor/RuntimeVarEditor.c:759-786 | with graphics, the header and two rows turn the full list of any old selection into the full list of the new one |
| `RuntimeVarScreen.TwoRowsAreTooMuch` | Applications/RuntimeVarEditor/RuntimeVarEditor.c:143-146 | on the text console they never do, whatever the list, the selections and the number of rows |
| `RuntimeVarScreen.QuietKey` | Applications/RuntimeVarEditor/RuntimeVarEditor.c:1278-1425 | a key other than an arrow in the list that asks for no redraw leaves the model as it was, or the editor in detail view |
| `RuntimeVarScreen.NextIsCoherent` | Applications/RuntimeVarEditor/RuntimeVarEditor.c:1245-1426 | with graphics or just one row, a wait with the screen of a full redraw is followed by another such, whatever the key and the answers |
| `RuntimeVarScreen.WaitsAreCoherent` | Applications/RuntimeVarEditor/RuntimeVarEditor.c:1245-1426 | with graphics or just one row, all waits that follow one with the screen of a full redraw are so too |
| `RuntimeVarScreen.ConsoleGoesWrong` | Applications/RuntimeVarEditor/RuntimeVarEditor.c:759-786 | on the text console with any number of rows but one, Down in a list of two leaves the old list with the header and the rows printed below, which is not the full redraw |
| `RuntimeVarScreen.CoherentExactly` | Applications/RuntimeVarEditor/RuntimeVarEditor.c:1451-1456 | the list shown is that of a full redraw at every wait of every run if and only if there are graphics or exactly one row is visible |
| `RuntimeVarScreen.WaitsAreTurns` | Applications/RuntimeVarEditor/RuntimeVarEditor.c:1245-1430 | on any screen, each wait follows from the one before by one turn of the simple form, and a run ends early only by a key that ends it |
| `RuntimeVarKeys.TurnObeys` | Applications/RuntimeVarEditor/RuntimeVarEditor.c:1278-1425 | what each key does: Page Down and Page Up move by exactly the visible rows or to the end and never the other way, Up and Down by one, Left and Right by one page of 256 bytes within the data, Enter opens, Esc closes, E, A, D and R reread or reload; the rows scroll no further than needed |
| `RuntimeVarKeys.RunObeys` | Applications/RuntimeVarEditor/RuntimeVarEditor.c:1206-1430 | over a whole run every key had that effect between the two waits around it, and the run ended exactly at the first q, or Esc in the list, or with the keys |
| `RuntimeVarKeys.KeysUndo` | Applications/RuntimeVarEditor/RuntimeVarEditor.c:1323-1369 | Up undoes Down and Down Up inside the list, Left undoes Right and Right Left inside the data, Esc undoes Enter |
| `RuntimeVarKeys.ListShows` | Applications/RuntimeVarEditor/RuntimeVarEditor.c:615-671 | header and rows agree: the rows show the entries with the numbers the header gives, and the selected one, which the header names, alone is highlighted |
| `RuntimeVarKeys.ConsoleHeader` | Applications/RuntimeVarEditor/RuntimeVarEditor.c:617-643 | on the console the same numbers and the selected variable are printed below the title |
| `RuntimeVarKeys.ConsoleShows` | Applications/RuntimeVarEditor/RuntimeVarEditor.c:654-672 | on the console each visible variable is printed in its place, as name, attributes, size and GUID |
| `RuntimeVarEditor.Editor.DrawSelectionInfo` | Applications/RuntimeVarEditor/RuntimeVarEditor.c:675-722 | with graphics the header becomes that of a full redraw; on the console its lines are printed below what is there |
| `RuntimeVarEditor.Editor.DrawList` | Applications/RuntimeVarEditor/RuntimeVarEditor.c:590-673 | with graphics or on the console, the screen is the full list of the current model and nothing else |
| `RuntimeVarEditor.Editor.DrawCells` | Applications/RuntimeVarEditor/RuntimeVarEditor.c:654-672 | every visible row shows the variable at its distance from the first, highlighted exactly if selected; rows past the end stay empty |
| `RuntimeVarEditor.Editor.PrintRows` | Applications/RuntimeVarEditor/RuntimeVarEditor.c:654-672 | the lines of the visible variables are printed in order, and no others |
| `RuntimeVarEditor.Editor.DrawListRow` | Applications/RuntimeVarEditor/RuntimeVarEditor.c:724-757 | with graphics exactly the row of this index is redrawn, in its place; on the console its four lines are printed below |
| `RuntimeVarEditor.Editor.RedrawListSelection` | Applications/RuntimeVarEditor/RuntimeVarEditor.c:759-786 | the screen is the old one with the header and the rows of the old and the new selection drawn over it, or printed below it |
| `RuntimeVarEditor.Editor.Scroll` | Applications/RuntimeVarEditor/RuntimeVarEditor.c:1245-1259 | the selection is made valid and the rows scrolled to it, and nothing else changes |
| `RuntimeVarEditor.Editor.WaitForEvent` | Applications/RuntimeVarEditor/RuntimeVarEditor.c:1271 | the wait records the screen and the model as they are |
| `RuntimeVarEditor.Editor.Prepare` | Applications/RuntimeVarEditor/RuntimeVarEditor.c:1261-1269 | the model is made valid; the screen is the full redraw of it if one was asked for, and untouched otherwise |
| `RuntimeVarEditor.Editor.StepSelection` | Applications/RuntimeVarEditor/RuntimeVarEditor.c:1317-1337 | an arrow key moves the selection by one within the list, and is noted in list view exactly if it moved |
| `RuntimeVarEditor.Editor.ScrollToSelection` | Applications/RuntimeVarEditor/RuntimeVarEditor.c:1372-1379 | the rows scroll so that the selection is visible, and nothing else changes |
| `RuntimeVarEditor.Editor.MoveSelection` | Applications/RuntimeVarEditor/RuntimeVarEditor.c:1317-1390 | an arrow key moves by one; it asks for a full redraw exactly if the rows scroll, and otherwise the incremental redraw is on the screen |
| `RuntimeVarEditor.Editor.ActOnSelection` | Applications/RuntimeVarEditor/RuntimeVarEditor.c:1338-1425 | the other keys do what the simple form says, for which `RuntimeVarKeys.TurnObeys` holds; one that asks for no redraw changes nothing |
| `RuntimeVarEditor.Editor.HandleKey` | Applications/RuntimeVarEditor/RuntimeVarEditor.c:1278-1425 | each key has the simple form's effect, asks for a full redraw exactly when the simple form does, and ends the editor exactly when that does; without a full redraw the screen is the old one, or the incremental redraw of it |
| `RuntimeVarEditor.Editor.TakeTurn` | Applications/RuntimeVarEditor/RuntimeVarEditor.c:1272-1426 | from one wait for a key to the next, screen and model are what `Next` says of that key; ending changes nothing |
| `RuntimeVarEditor.Editor.TurnAndWait` | Applications/RuntimeVarEditor/RuntimeVarEditor.c:1271-1426 | one turn and the next wait add the next of the run's waits; a key that ends the editor ends it with the last |
| `RuntimeVarEditor.Editor.TakeTurns` | Applications/RuntimeVarEditor/RuntimeVarEditor.c:1244-1430 | the loop records exactly the waits of the run |
| `RuntimeVarEditor.Editor.Run` | Applications/RuntimeVarEditor/RuntimeVarEditor.c:1206-1430 | over every key sequence and every answer of the store, with graphics or on the console: the screens and models recorded at the waits are exactly those of `WaitsOf`, every key had its effect on them (`KeysObeyed`), and with graphics or one row the list is that of a full redraw at each |
| `Parsers.ParseUint32` | Applications/RebootTest/RebootTest.c:104-135 | accepts exactly the non-empty decimal numerals below 2^32 and yields their value |
| `Parsers.RveParseHexUintn` | Applications/RuntimeVarEditor/RuntimeVarEditor.c:844-885 | accepts exactly the non-empty text that is a hexadecimal numeral below 2^64 after an optional prefix, a bare prefix being zero |
| `Parsers.ParseHexAddress` | Applications/LoongArchMappingDump/LoongArchMappingDump.c:382-416 | the value modulo 2^64 of any hexadecimal numeral, so the same as the other parser on what that accepts |
| `Parsers.DecimalRoundTrip` | Applications/RebootTest/RebootTest.c:118-134 | decimal printing is a numeral of the printed value, for every number |
| `Parsers.HexRoundTrip` | Applications/RuntimeVarEditor/RuntimeVarEditor.c:844-885 | hexadecimal printing, with digits of either case, is a numeral of the printed value, for every number |
| `Parsers.HexTextReadBack` | Applications/LoongArchMappingDump/LoongArchMappingDump.c:382-416 | so it is read back by both hexadecimal parsers, bare or behind 0x or 0X |
| `Decode.DmaEnd` | Applications/NicDmaScan/Decode.c:3-7 | an end exactly for non-empty ranges whose end is a 64-bit number |
| `Decode.RamContains` | Applications/NicDmaScan/Decode.c:22-28 | containment as on unbounded numbers, false when anything would wrap |
| `NicDmaScan.PowerD0` | Applications/NicDmaScan/NicDmaScan.c:21-42 | true exactly if there is no capability list, or the chain ends at a power management capability in D0 or at none; all reads inside 256 bytes |
| `NicDmaLayout.PowerReadBack` | Applications/NicDmaScan/NicDmaScan.c:33-37 | of a list that begins with the power management capability: access is allowed exactly if the two low bits of its control word are zero |
| `NicDmaScan.TerminatingIsDistinct` | Applications/NicDmaScan/NicDmaScan.c:28-38 | a chain that ends never repeats a capability |
| `NicDmaScan.SlotsAreFew` | Applications/NicDmaScan/NicDmaScan.c:28-29 | different aligned slots number at most 48, so the cap cuts off no chain that ends |
| `NicDmaScan.GetMap` | Applications/NicDmaScan/NicDmaScan.c:86-112 | hands out a map exactly if the last of at most four calls filled a buffer with whole descriptors, and then that one |
| `NicDmaScan.DescriptorsInside` | Applications/NicDmaScan/NicDmaScan.c:119-120 | each descriptor looked at lies in the buffer, and the position after it does not wrap |
| `NicDmaScan.StrideOf` | Applications/NicDmaScan/NicDmaScan.c:119 | the strides that start below the size are exactly the whole entries of the map |
| `NicDmaScan.ReadableRam` | Applications/NicDmaScan/NicDmaScan.c:114-126 | the loop over the bytes of the buffer, stride by stride, looks at every entry of the map and nothing else; true exactly if one eligible region holds the whole range |
| `NicDmaLayout.MapReadBack` | Applications/NicDmaScan/NicDmaScan.c:119-123 | the map read from a buffer built field by field, for any list of entries and any stride of at least 40, is that list |
| `NicDmaLayout.SafeRegion` | Applications/NicDmaScan/Decode.c:15-28 | an entry makes a range safe exactly if its type is 1, 2, 3, 4 or 7, it is write-back, neither runtime nor read-protected, and holds the whole range without wrapping |
| `NicDmaLayout.EligibleExactly` | Applications/NicDmaScan/NicDmaScan.c:114-126 | the answer about a built map is yes exactly if one of its entries makes the range safe |
| `NicDmaScan.ReadDescriptor` | Applications/NicDmaScan/NicDmaScan.c:152-154 | reads exactly the 16 bytes of the descriptor, and hands out what memory answered |
| `NicDmaScan.ReadTwice` | Applications/NicDmaScan/NicDmaScan.c:144-155 | a descriptor is read exactly if the ring up to it is safe, and then twice; the two copies are what memory answered |
| `NicDmaScan.Observe` | Applications/NicDmaScan/NicDmaScan.c:144-155 | one more descriptor keeps the record of the reads complete: every copy observed is a logged read of a safe prefix |
| `NicDmaScan.PayloadOf` | Applications/NicDmaScan/NicDmaScan.c:166-177 | a payload range exactly for a non-zero address, length and no wrap, called RAM exactly if one eligible region holds it |
| `NicDmaLayout.RingReadBack` | Applications/NicDmaScan/NicDmaScan.c:159-179 | of a descriptor built from its fields: it ends the ring exactly if bit 30 is set, and the payload reported has its address and the 14 or 16 bits of its length |
| `NicDmaScan.ReportPayload` | Applications/NicDmaScan/NicDmaScan.c:159-177 | reports that range, without reading it |
| `NicDmaScan.WalkRing` | Applications/NicDmaScan/NicDmaScan.c:143-179 | of the copies that were read: counts the stable ones, complete exactly at the first with EOR, otherwise stopped at the cap, before an unsafe descriptor or at one that changed |
| `NicDmaScan.Snapshot` | Applications/NicDmaScan/NicDmaScan.c:128-187 | refused exactly for a zero or unaligned base or when GetMap hands out no map; the report and the payloads follow from the bytes read and that map: a ring end only for 1 to 256 descriptors that read the same twice, of which the last and no other has EOR; nothing else is read |
| `NicDmaScan.EveryReadIsCovered` | Applications/NicDmaScan/NicDmaScan.c:144-154 | every byte dereferenced belongs to a descriptor whose whole prefix of the ring lies in one eligible region, without wrap-around |
| `NicDmaScan.ReadsDetermineObserved` | Applications/NicDmaScan/NicDmaScan.c:152-158 | the log of addresses and bytes leaves one choice for what was observed |
| `ChainWalk.WalkMoved` | Applications/PciOptionRomInfo/PciOptionRomInfo.c:171-256 | the walk of some bytes is the same further on in a buffer, but for numbers and offsets |
| `ChainWalk.WalkComposes` | Applications/PciOptionRomInfo/PciOptionRomInfo.c:171-256 | a buffer of complete items before any bytes: its walk, then theirs moved behind it |
| `ChainWalk.WalkInvertsJoin` | Applications/PciOptionRomInfo/PciOptionRomInfo.c:171-256 | the walk of joined pieces lists the pieces, whatever comes after |
| `ChainWalk.WalkPasses` | Applications/PciOptionRomInfo/PciOptionRomInfo.c:171-256 | joined pieces none of which stops the walk before any bytes: they are listed, then the walk goes on with the next number and offset |
| `PciOptionRom.RangeInBuffer` | Applications/PciOptionRomInfo/PciOptionRomInfo.c:21-38 | containment as on unbounded numbers |
| `PciOptionRom.PrintEfiRomHeader` | Applications/PciOptionRomInfo/PciOptionRomInfo.c:88-139 | the EFI lines of the image at this offset, read in bounds; the truncated branch is dead |
| `PciOptionRom.LookAtImage` | Applications/PciOptionRomInfo/PciOptionRomInfo.c:172-218 | the PCIR of the image, or the first reason to reject it, depends only on the bytes from the offset on; all reads in bounds |
| `PciOptionRom.PrintImage` | Applications/PciOptionRomInfo/PciOptionRomInfo.c:172-252 | one image's lines, stopping after one whose indicator has bit 7 and going on otherwise, only by a positive size that fits |
| `PciOptionRom.TurnFromBytes` | Applications/PciOptionRomInfo/PciOptionRomInfo.c:172-252 | byte by byte: which reason an image is rejected for, when its length is invalid, when it is the last, and by how much the walk goes on |
| `PciOptionRom.PrintNext` | Applications/PciOptionRomInfo/PciOptionRomInfo.c:171-256 | one turn of the loop lists one more item of the walk, or the last one |
| `PciOptionRom.PrintOptionRomImages` | Applications/PciOptionRomInfo/PciOptionRomInfo.c:141-257 | the loop ends and lists the walk of the buffer, of which TurnFromBytes, WalkInvertsBuild and UnmarkedCompose say what it is |
| `PciOptionRom.TurnIsLocal` | Applications/PciOptionRomInfo/PciOptionRomInfo.c:172-252 | an accepted image that fits says the same whatever bytes follow |
| `PciOptionRom.RomsCompose` | Applications/PciOptionRomInfo/PciOptionRomInfo.c:141-257 | if a is used up by accepted images none of which is last, the walk of a and b is that of a, then that of b moved behind it |
| `PciOptionRom.LookAtBuilt` | Applications/PciOptionRomInfo/PciOptionRomInfo.c:177-220 | a built image is found with its PCIR before any bytes |
| `PciOptionRom.EfiReadBack` | Applications/PciOptionRomInfo/PciOptionRomInfo.c:110-138 | an EFI image is listed with the header fields it was built from |
| `PciOptionRom.TurnAtBuilt` | Applications/PciOptionRomInfo/PciOptionRomInfo.c:172-252 | a built image ends the walk exactly if it was built with the last mark, bit 7 of its indicator |
| `PciOptionRom.ImagesRecognized` | Applications/PciOptionRomInfo/PciOptionRomInfo.c:171-256 | in a built ROM every image is recognized in its place |
| `PciOptionRom.WalkInvertsBuild` | Applications/PciOptionRomInfo/PciOptionRomInfo.c:141-257 | the walk of a ROM built from any images with only the final one built with the last mark lists exactly those, whatever follows |
| `PciOptionRom.UnmarkedCompose` | Applications/PciOptionRomInfo/PciOptionRomInfo.c:171-256 | images built without the last mark, before any bytes: the walk lists them and goes on behind them |
| `PageWalk.ParseMaxPageTableLevel` | Applications/LoongArchMappingDump/LoongArchMappingDump.c:189-214 | never other than 0, 3, 4 or 5 levels |
| `PageWalk.FieldIs` | Applications/LoongArchMappingDump/LoongArchMappingDump.c:196-223 | a shifted and masked field is what division and remainder by powers of two leave |
| `PageWalk.LevelsAre` | Applications/LoongArchMappingDump/LoongArchMappingDump.c:189-223 | five levels if bits 18 to 23 of PWCTL1 are in use, four if bits 6 to 11 are, three if bits 25 to 30 of PWCTL0 are, else none; the index width is bits 5 to 9 of PWCTL0 |
| `PageWalk.Ppn` | Applications/LoongArchMappingDump/LoongArchMappingDump.c:322 | a table is page-aligned and below 2^48, whatever the entry |
| `PageWalk.GetEntryKind` | Applications/LoongArchMappingDump/LoongArchMappingDump.c:144-165 | the printed kind is a table pointer exactly if the walk's own test says so |
| `PageWalk.EntryIs` | Applications/LoongArchMappingDump/LoongArchMappingDump.c:154-164 | above the last level an entry is a huge leaf exactly if bits 6 and 12 are both set, and otherwise points to the table at its bits 12 to 47 |
| `PageWalk.ShiftFits` | Applications/LoongArchMappingDump/LoongArchMappingDump.c:297 | no shift exceeds 60 |
| `PageWalk.SelectorAt` | Applications/LoongArchMappingDump/LoongArchMappingDump.c:297-298 | the field shifted out at a level is that digit of the address |
| `PageWalk.VisitEntry` | Applications/LoongArchMappingDump/LoongArchMappingDump.c:297-313 | what is looked up and printed is the translation's visit, with index below the table size |
| `PageWalk.WalkTables` | Applications/LoongArchMappingDump/LoongArchMappingDump.c:293-323 | the loop is the recursive translation and always ends by itself within the levels |
| `PageWalk.DumpPageWalk` | Applications/LoongArchMappingDump/LoongArchMappingDump.c:248-324 | the dump is that translation from the root that bit 47 selects, or nothing for an unsupported configuration |
| `PageWalk.RootIs` | Applications/LoongArchMappingDump/LoongArchMappingDump.c:290-293 | the root is PGDH exactly if bit 47 of the address is set, else PGDL, and the first table is at its bits 12 to 47 |
| `PageWalk.WalkEnds` | Applications/LoongArchMappingDump/LoongArchMappingDump.c:312-322 | every visit but the last is a table pointer that gives the next table; the last is a leaf or invalid |
| `PageWalk.VisitAt` | Applications/LoongArchMappingDump/LoongArchMappingDump.c:296-299 | levels in order, each with its digit and its shift |
| `PageWalk.AddressRecombines` | Applications/LoongArchMappingDump/LoongArchMappingDump.c:297-298 | the level indices and the page offset make up the address modulo 2^(12 + levels * width) |
| `PageWalk.SameWalkExactly` | Applications/LoongArchMappingDump/LoongArchMappingDump.c:296-323 | two addresses take the same walk from a table if and only if they agree on the bits from the stopping shift to the top of the translated range |
| `PageWalk.SameBlockSameDump` | Applications/LoongArchMappingDump/LoongArchMappingDump.c:290-323 | addresses that agree on bit 47 and on all bits from the stopping shift up give the same dump |
| `PageWalk.TlbPageShift` | Applications/LoongArchMappingDump/LoongArchMappingDump.c:350-353 | bits 24 to 29 of the register if they are from 1 to 47, else 12 |
| `PageWalk.CoversPair` | Applications/LoongArchMappingDump/LoongArchMappingDump.c:361-362 | the mask test holds exactly for addresses in the even and odd page that start at the entry's rounded address |

## Left out

- The CRC-32 algorithm and all firmware services: a parameter and methods with arbitrary answers.
- EDK II headers (`Pci22.h`, `UefiSpec.h` and others) are not part of this model; structure sizes and field offsets are written out as constants.
- UINTN is 64 bits wide, so the checks against MAX_UINTN of a 64-bit number do not appear; PCI segments are taken to be below MAX_UINTN, which the code uses as its sentinel, where headers are concerned.
- RebootShellRuns.ShellSafety: assumes the condition on Next where `set -v` may fail; without it the bound is false, and BoundExact shows the condition to be exact.
- RebootShellRuns.TypeSafety: assumes the condition on NewType where `set -v` may fail; without it the type is not kept, and TypeExact shows the condition to be exact.
- RebootRuns.NoResetAfterClear: a deletion is taken to be durable at once, because the program has no way to flush it.
- RebootShell.Machine.Startup: variables are already-typed values, so raw text substitution, case folding and syntax errors of the UEFI Shell do not appear.
- RuntimeVariables.RveLoadVariables: the store does not change during one load.
- RuntimeVarEditor.Editor.Run: the screen in detail view, where the arrow keys change the selection without a redraw, and the transient message are not compared; a key is either a scan code or a character.
- RuntimeVarEditor.Editor.DrawList: pixels, colours, fonts, the footer, and screens at most 28 pixels wide, where nothing is filled; rows are cells. Where there is a graphics protocol but no font, the highlight rectangle that a full redraw of the text console does fill is not modelled.
- The prompts of the editor (byte edit, attributes, confirmation) and writing variables: any answer they can give is a response.
- NicDmaScan.Snapshot: the final second read of the ring register, which only adds a line saying to discard everything.
- BAR selection, the reads of ring registers, device enumeration and identity reporting of NicDmaScan.
- The TLB search and register reads of LoongArchMappingDump: inline assembly, taken as inputs.
- Collecting PCI devices and printing a device's fields: the drawing stands for the line.
- FillNvVars, NullAddressProbe, the UefiTools dispatcher and its adapters, name tables for classes, code types and machines: branch by branch, with nothing to prove across them.
