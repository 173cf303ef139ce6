# A small operating system's file system and process kernel, verified

The project models two parts of the kernel and proves what they promise.

**The file system** (`src/fat32.c`, with the parent walk of `src/interrupt.c` and the path walk of
`src/command-shell.c`). It is described on four levels, each tied to the next:

1. bytes: `BlockDevice` is a 4 MiB image with block reads and writes, and `Layout` gives the structures
   on disk and their encodings, with round trips in both directions;
2. the driver: the class `Driver.Fat32` holds the cached allocation table, the directory buffer and the
   device, and its methods are the procedures of `src/fat32.c` with their loops. `Fat32.Valid` says that
   table and image are those of a volume;
3. volumes: `Volumes` describes the state as values, gives each operation as a function with the code's
   branches and return codes, and says what a well-formed volume is (`Inv`). A volume carries a map `own`
   that says which slot, or which preceding cluster, refers to each cluster. The code has no such map;
   it is bookkeeping that makes "referred to exactly once" a statement about single clusters. No result
   of an operation depends on it, and `SameImage` compares disks without it;
4. trees: `Tree.TreeOf` maps a volume to its live directories and to what each (directory, name,
   extension) stands for, a folder or a file's bytes. Every operation is an operation on the tree, and
   `Space` tells the free space, and with it the return code of `write`, from the tree alone.

**Processes, memory and scheduling** (`src/paging.c`, `src/process.c`, `src/scheduler.c`, the timer branch
of `src/interrupt.c`, and the two assembly routines). `Paging`, `Processes` and `Scheduler` give the steps
as functions on one state and prove what holds over all runs; `KernelDriver` has the C procedures, with
arrays and loops, proved to be these functions; `ContextSwitch` has the assembly routines as a machine
with registers and a stack, and `Preemption` joins it to the process table. A memory carries a map `users`, bookkeeping of the same kind as `own`.

**Strings** (`src/string.c`): the word splitter and the parser of 8.3 names.

## Findings

Where the code does not keep what one would expect of it, the exact condition is proved. Where a lemma of
`Witnesses` or `KernelWitnesses` is named, it gives a run from a new file system, or from the kernel as
linked, that reaches the failing case.

- A file that takes the slot of a deleted folder keeps the folder's attribute, because deleting an entry
  leaves the attribute and adding a file does not reset it (`src/fat32.c:372-384`, `src/fat32.c:466-475`).
  `Restore.WellFormedUnlessStale`: a write leaves a well-formed volume if and only if it does not put a
  file into such a slot, and if it does no account of who owns what would fit; `Restore.ReadableUnlessStale`: reading the file back returns 1 instead of 0 in
  exactly that case. Runs therefore have no such writes. `Witnesses.StaleSlotReached`: creating and deleting
  one folder is enough.
- A write that runs out of space midway returns without flushing the table (`src/fat32.c:434-438`). The
  volume stays well-formed and the tree gets a file with the blocks that fitted, but the disk's table is
  behind the cached one. `Runs.MountAfter`: a remount matters if and only if the file got a slot and a
  first cluster and needs more clusters than are free. `Restore.RemountAfter`: in exactly that case the
  volume that it finds is not well-formed, as a used entry names a free cluster. `Witnesses.CutShortReached`: any file of more than
  1 MiB in a new file system.
- Creating and deleting a folder leaves the attribute in its slot: `Restore.WriteThenDelete` says exactly
  when the disk is restored byte for byte.
- `next_free_frame` is stale while the memory is exhausted. `Paging.ReleaseKeeps`: it still names the
  lowest free frame after a release if and only if the release does not end an exhausted spell above it;
  `Paging.StaleHintSharesFrame`: otherwise the next allocation gives out a frame that is still mapped.
  `KernelWitnesses.MisleadingReleaseReached`: allocate all 31 frames, release and allocate the first,
  release the second.
- The memory check compares a page count with a size in bytes (`src/process.c:92`), so it passes with a
  single free frame: `Processes.CheckIsWeak` is its exact meaning, and `Processes.CreatedFullyMapped` says
  that all pages of a new process are mapped if and only if there were frames for all.
  `KernelWitnesses.WeakCheckReached`: the fourth program of eight frames is accepted with seven left.
- The size of a program is rounded up in 32-bit arithmetic (`src/process.c:91`). `Processes.FramesForFileAndStack`:
  a program gets a frame for each 4 MiB begun and one for its stack if and only if its size is below
  0xFFC00000. `KernelWitnesses.NoFrameReached`: a program of that size is accepted and gets no frame.
- A process that ends while it is the current one, and leaves one other, leaves that one waiting.
  `Scheduler.TimerDispatches`: an active process that is off the processor gets it within 16 ticks if and
  only if more than one process is active. `KernelWitnesses.LoneProcessReached`: start two, end the first.
- A process created while the current one is dead and all 15 others are active gets the dead one's slot, and
  the next tick saves the dead program's registers into it (`src/process.c:24-40`, `src/scheduler.c:17-22`).
  `Scheduler.StartFaithful` and `Scheduler.StartOverwritten`: this happens if and only if
  `Processes.OnlyCurrentFree` holds, and then the new process goes on as the dead program.
  `KernelWitnesses.DeadSlotReached`: start sixteen programs, end the current one.
- `process_destroy` takes the id of a dead process as well (`src/process.c:145-167`), counts one process less
  and frees the directory that its block still names. `Processes.DestroyKeepsOnlyAlive`: for an id that was
  given out the kernel stays in order if and only if its process is alive. `Processes.DestroyDead`: for a dead
  one's id the memory stays as it is if and only if no process owns that directory now; otherwise the owner
  keeps its block and loses the directory and every frame. `KernelWitnesses.DeadIdReached`: start a second
  program, let it run, end the first, start a third. System call 10 destroys id 1 without a check
  (`src/interrupt.c:217-218`).
- `countWords` takes a string of one character to hold no word, and a word that ends right before a
  final space is returned with that space: `Strings.CountWords` and `Strings.WordIsExact` are
  equivalences.
- If a user program's data segment has privilege bits 0, as a null selector or 0x20 has, its own stack pointer
  is not patched into the frame
  (`src/intsetup.s:30-37`). `ContextSwitch.Machine.PreemptAndResume`: a preempted program resumes as it was if
  and only if its data segment has user privilege, or the two stack pointers are equal.

## Hypotheses

- The image is zero-filled when the file system is created (`makefile:27`).
- A request's name and extension are not all zero, and its parent cluster is a live directory or reads as
  zeroes. `write` judges its parent by one byte only (`src/fat32.c:390`), so a file's data cluster could
  pass for a directory.
- A request's buffer reaches to the end of its last cluster, because whole clusters are copied.
- Creating a process: a page directory can still be handed out, more frames are free than the program
  takes, and the program ends below the kernel. `page_dir_free` is never incremented, so at most 32
  directories are ever handed out; it never exceeds the number of unused ones.
- On runs a process that is destroyed is active, as `kill` makes sure (`src/command-shell.c:889-893`), and not
  the last one, with which the machine exits.
- Runs start after the first switch, which finds no current process; its store to slot -1
  (`src/scheduler.c:33`) is skipped. On runs no process is created when the only free slot is that of a
  current process that has died.
- Paths that `cd` follows have components of one to seven characters that name folders, except that the
  last one may name nothing, and the printed path fits its 100 characters.

Where the code and its comments disagree the code is followed: `read_directory` does use the extension and
does not look at the buffer size, and looks the name up in the parent given rather than taking that for
the target; `read` copies whole clusters rather than stopping at the buffer size; freeing a page directory
keeps the kernel's entry and the flags of the others (`src/header/filesystem/fat32.h`,
`src/header/memory/paging.h`).

## Model

| member | source | states |
|---|---|---|
| BlockDevice.BlockDevice.ReadBlocks | src/external-inserter.c:13-22 | the bytes returned are those of the image at the given blocks |
| BlockDevice.BlockDevice.WriteBlocks | src/external-inserter.c:24-33 | the blocks named hold the given bytes afterwards and every other byte of the image is as before |
| BlockDevice.BlockDevice.ReadCluster | src/fat32.c:158-161 | a cluster is read whole, from the four blocks that are its own |
| BlockDevice.BlockDevice.WriteCluster | src/fat32.c:163-166 | seen as a sequence of clusters, the image changes in that one cluster and in no other |
| Layout.EntryRoundTrip | src/header/filesystem/fat32.h:82-98 | a directory entry written as 32 bytes and read again is the same entry |
| Layout.EntryFromBytes | src/header/filesystem/fat32.h:82-98 | any 32 bytes read as an entry and written again are the same bytes |
| Layout.EntryBytes | src/header/filesystem/fat32.h:82-98 | where each field of an entry lies in its 32 bytes, and that the two halves of the cluster and the size lie least significant byte first |
| Layout.TableSlice | src/header/filesystem/fat32.h:101-103 | the entry in slot i lies at byte 32 * i of its cluster |
| Layout.TableRoundTrip | src/header/filesystem/fat32.h:101-103 | a directory table survives being written to its cluster and read back |
| Layout.TableFromBytes | src/header/filesystem/fat32.h:101-103 | any cluster read as a table and written back is unchanged |
| Layout.MapRoundTrip | src/header/filesystem/fat32.h:58-60 | the allocation table survives being written to its cluster and read back |
| Layout.MapBytes | src/header/filesystem/fat32.h:58-60 | cell c lies at byte 4 * c, least significant byte first |
| Layout.BlankTable | src/fat32.c:494-495 | writing the empty table zeroes a cluster, and a zeroed cluster reads as that table |
| Volumes.FindEntry | src/fat32.c:236-248 | the first slot from 2 on whose name and extension match, whether or not it is marked as used; none before it matches |
| Volumes.FindEmptySlot | src/fat32.c:360-370 | the first slot from 2 on that is not in use; all before it are |
| Volumes.FindEmptySpace | src/fat32.c:348-358 | the lowest cell that is zero; all below are not |
| Volumes.FoundEntry | src/fat32.c:236-248 | on a well-formed volume a lookup, which ignores the used mark, still only ever finds a used slot of a live directory |
| VolumeInvariant.AddFileKeeps | src/fat32.c:407-447 | entering a file with its first block keeps the volume well-formed |
| VolumeInvariant.AddFolderKeeps | src/fat32.c:413-423 | entering a folder with its new table keeps the volume well-formed |
| VolumeInvariant.ExtendKeeps | src/fat32.c:441-446 | appending a free cluster above the file's last one keeps the volume well-formed |
| VolumeInvariant.ShrinkKeeps | src/fat32.c:506-509 | taking the first cluster off a file keeps the volume well-formed, with the entry naming the second |
| VolumeInvariant.RemoveKeeps | src/fat32.c:494-512 | clearing an entry together with its only cluster keeps the volume well-formed |
| VolumeInvariant.FlushKeeps | src/fat32.c:449 | writing the cached table to disk keeps the volume well-formed and makes the copies equal |
| Chains.NextCell | src/fat32.c:309-314 | a file's cell is the end mark or links strictly upwards to a cell of the same file: 512 - c measures the chain loops of read and delete |
| Chains.PreviousCell | src/fat32.c:442-445 | every later cluster of a file is linked from exactly the lower cluster recorded for it |
| Chains.HeadCell | src/fat32.c:430-448 | every cluster of a file leads back to a first cluster that a directory slot owns |
| Chains.LastCell | src/fat32.c:504-512 | every chain ends, within its own file, in a cell with the end mark |
| Chains.ChainEnds | src/fat32.c:386-452 | each used entry heads an ascending chain of cells from 3 on that ends in the end mark |
| Chains.ChainsPartition | src/fat32.c:386-517 | the nonzero cells from 3 on are exactly those on chains of used entries, and no cell is on the chains of two entries |
| Chains.ContentBlock | src/fat32.c:307-314 | block k of what a file reads is, byte for byte, what the image holds in the k-th cluster of its chain |
| Chains.ContentFrame | src/fat32.c:307-314 | what a file reads depends on its own clusters and cells only |
| Chains.ExtendContent | src/fat32.c:441-446 | appending a cluster to a chain appends its bytes to what the file reads |
| Operations.NoSpace | src/fat32.c:407-411 | the search for space fails exactly when no cell is free |
| Operations.GrowEffect | src/fat32.c:430-450 | the loop of write returns 0 exactly if the free clusters suffice, uses that many or all, flushes the table only if it returns 0, and changes nothing but the file it grows |
| Operations.GrowLowest | src/fat32.c:348-358 | a cell that the loop of write takes lies below any that stays free |
| Operations.GrowContent | src/fat32.c:430-448 | after the loop the file reads as before, followed by the blocks of the buffer that found space |
| Operations.RemoveFileEffect | src/fat32.c:501-512 | the loop of delete keeps the volume well-formed, frees and zeroes exactly the file's own clusters and clears its slot |
| Operations.RemoveFolderEffect | src/fat32.c:494-497 | deleting an empty folder frees and zeroes exactly its cluster and clears its slot |
| Tree.LiveParent | src/fat32.c:389-393 | entry 0 carries the subdirectory attribute exactly in live directories, among these and zeroed clusters |
| Tree.WriteRejected | src/fat32.c:388-411 | a write to a dead parent, of an existing name, or without a slot or a free cluster returns 2, 1 or -1 and changes nothing |
| Tree.WriteFolder | src/fat32.c:413-424 | creating a folder adds one empty live directory, in the lowest free cluster, under the name, and nothing else |
| Tree.WriteFile | src/fat32.c:425-451 | writing a file adds exactly that file: with the request's bytes and code 0 if it fits, and else with the blocks that fitted, all space used and code -1 |
| Refinement.EmptyFolder | src/fat32.c:454-464 | a directory's table has no used slot exactly if no name lies in it |
| Refinement.DeleteRefines | src/fat32.c:477-517 | exact return codes told from the tree; with 0 the name is gone, and the directory with it if it was a folder, and the tables agree; else nothing changed |
| Refinement.DeleteFrees | src/fat32.c:494-512 | a delete that returns 0 frees exactly the cells on the entry's chain, and zeroes their clusters |
| Refinement.DeletedEntry | src/fat32.c:466-475 | of the parent's table exactly that slot changes: name, mark, cluster and size are cleared, attribute and stamps stay |
| Refinement.SlotsTold | src/fat32.c:360-370 | at most 62 names lie in a directory, and there is a slot for one more exactly if there are fewer |
| Refinement.ReadRefines | src/fat32.c:288-316 | exact return codes told from the tree; with 0 the bytes copied are the file's clusters, which start with the file's bytes, and otherwise there are none |
| Refinement.ReadDirectoryRefines | src/fat32.c:319-336 | exact return codes told from the tree; with 0 the table copied lists exactly the names that lie in the folder |
| Refinement.ReadDirectoryTells | src/fat32.c:319-336 | the table copied is the folder's own: entry 0 carries its name and entry 1 the parent's cluster, a slot is in use exactly if it has a name, and for each name attribute, size and cluster are those of the folder or file that it stands for |
| Refinement.WriteRefines | src/fat32.c:386-452 | write returns 0 exactly when the parent is live, the name unused, a slot of 2 to 63 free and the free clusters at least max(1, ceil(n / 2048)); what the tree becomes, how many clusters are left, and that every other outcome but running out midway changes nothing |
| Refinement.WrittenEntry | src/fat32.c:372-384 | the entry goes to the first slot not in use, names the lowest free cluster and has the request's name and size; its attribute is raised for a folder and left for a file, its stamps and all other slots stay |
| Refinement.NewFolderTable | src/fat32.c:168-191 | the new folder's own entry has its name and no cluster, its parent entry the name ".." and the parent's cluster; both carry attribute 16 and used mark 170, and all else is zero |
| Refinement.WriteLowest | src/fat32.c:407-448 | every cell that a write takes lies below any that stays free |
| Space.RunTight | src/fat32.c:427-448 | on every run no file has more clusters than its size needs |
| Space.CreatedTight | src/fat32.c:193-215 | a new file system is one from which such runs start |
| Space.FileCount | src/fat32.c:427-448 | such a file has exactly the clusters that its bytes need |
| Space.FreeTold | src/fat32.c:348-358 | the free clusters are 509 less one for each live directory below the root and less ceil(bytes / 2048) for each file |
| Space.WriteCodeTold | src/fat32.c:386-452 | the return code of write is a function of the tree: parent, name, the number of names in the parent, and what folders and files take |
| Space.Described | src/fat32.c:386-517 | a well-formed volume's directories and files are finite sets of the tree |
| Runs.RunKeeps | src/fat32.c:386-517 | every run of writes and deletes, including writes cut short, keeps the volume well-formed |
| Runs.CreatedIsWellFormed | src/fat32.c:193-215 | a new file system is well-formed, its tables agree and its tree is an empty root |
| Runs.NewMapBytes | src/fat32.c:199-206 | the bytes of a new allocation table: F0 FF FF 0F, twice FF FF FF 0F, and zeroes |
| Runs.RootBytes | src/fat32.c:208-214 | the bytes of a new root directory: its own entry named "Root" with cluster 2, its parent entry named ".." with cluster 2, and zeroes |
| Runs.NewFolderBytes | src/fat32.c:168-191 | the bytes of a new folder's table |
| Runs.FileSurvives | src/fat32.c:386-517 | operations on other names, whatever they are, leave a file's size and bytes as they were |
| Runs.ReadAfterWrite | src/fat32.c:288-452 | after a file write that returned 0 and any run of operations on other names, a read with enough room returns 0 and its first n bytes are those written |
| Runs.MountAfter | src/fat32.c:224-234 | from agreeing copies, a remount after an operation changes nothing exactly if the operation is not a write that gets a slot and a first cluster and needs more clusters than are free; after any that returned 0 it changes nothing |
| Runs.FreeIsDead | src/fat32.c:488-515 | a cluster that is free in the cached table is all zero and no live directory |
| Runs.DeadParent | src/fat32.c:388-393 | write, delete and read under a parent that is not live return 2, 1 and 3 and change nothing |
| Restore.FileRestored | src/fat32.c:477-517 | deleting a file just written gives back the volume as it was, cached table and disk |
| Restore.FolderUndone | src/fat32.c:477-517 | deleting a folder just created gives back the volume except for one slot's attribute |
| Restore.WriteThenDelete | src/fat32.c:386-517 | deleting what was just written returns 0 and restores the cached table; the disk is restored byte for byte exactly if a file was written, or the folder took a slot that already carried the attribute |
| Restore.GrowLeaves | src/fat32.c:430-449 | the loop of write touches no cluster that was in use, the table apart |
| Restore.WellFormedUnlessStale | src/fat32.c:372-384 | a write leaves a well-formed volume exactly when it does not put a file into a slot that carries a deleted folder's attribute, refused writes included; if it does, no record of owners would make the volume well-formed |
| Restore.ReadableUnlessStale | src/fat32.c:288-316 | the file just written reads with 0 exactly in that case, and is taken for a folder in the other |
| Witnesses.StaleSlotReached | src/fat32.c:466-475 | from a new file system, creating and deleting a folder leads to a well-formed volume in which writing any file to the root breaks it |
| Restore.RemountAfter | src/fat32.c:224-234 | from agreeing copies, the volume found by a remount after an operation is well-formed exactly if the operation is not a file cut short; if it is, no record of owners would make it so |
| Witnesses.CutShortReached | src/fat32.c:434-438 | in a new file system a file of more than 1 MiB is cut short, and a remount then changes the table and finds a volume that is not well-formed |
| Directories.ParentIsDir | src/fat32.c:416-424 | a live directory below the root has a live parent one level up whose slot names it, with the same name as in its own entry 0 |
| Directories.OwnParent | src/interrupt.c:128-130 | entry 1 names the true parent, and a directory is its own parent only at the root |
| Directories.WalkBack | src/interrupt.c:123-141 | looking up the printed names in reverse from the root leads back to the directory, if no folder on the way has an extension |
| Directories.QueueMembers | src/fat32.c:259-285 | the queue holds live directories only, and each but the root came with its parent's expansion |
| Directories.BreadthFirst | src/fat32.c:259-285 | a fully expanded queue lists every live directory exactly once, the nearer to the root the earlier: exactly those reachable |
| Directories.QueueBounded | src/fat32.c:260 | the queue never outgrows the number of live directories, so 100 places suffice for 100 of them |
| Directories.SubfoldersInOrder | src/fat32.c:271-282 | the subfolders of a directory are appended in slot order |
| Directories.QueueByParent | src/fat32.c:259-285 | directories leave the queue in the order of their parents, and those of one parent in slot order |
| Directories.FindReports | src/fat32.c:264-269 | the hits are exactly the directories in which the name stands for something, each once and in queue order: nearer to the root first, then in the order of their parents, then in slot order |
| Driver.BootSector | src/fat32.c:217-222 | the signature tells a created file system from a zeroed disk |
| Driver.FindEntryIn | src/fat32.c:236-248 | the loop finds the first matching slot, or returns -9999 |
| Driver.FindIdxEmptyEntry | src/fat32.c:360-370 | the loop finds the first unused slot, or returns -9999 |
| Driver.IsEmptyDir | src/fat32.c:454-464 | the loop tells whether no slot from 2 on is in use |
| Driver.InitDirectoryTable | src/fat32.c:168-191 | in a zeroed table exactly the two header entries change: own name, parent link, attribute and used mark |
| Driver.Ceil | src/fat32.c:338-346 | the least integer not below its argument |
| Driver.TotalClusters | src/fat32.c:427 | the least number of whole clusters that hold the request's bytes |
| Driver.Fat32.FindSpace | src/fat32.c:348-358 | the lowest free cell of the cached table, or -9999 |
| Driver.Fat32.IsEmptyStorage | src/fat32.c:217-222 | whether the boot block differs from the signature, which is whether no file system was created |
| Driver.Fat32.CreateFat32 | src/fat32.c:193-215 | a zero-filled image and the cached table become those of a new file system; bytes 2048 to 2059 of the image are F0 FF FF 0F and twice FF FF FF 0F, and the root's name lies at byte 4096 |
| Driver.Fat32.Initialize | src/fat32.c:224-234 | creates on a zeroed image, and otherwise loads the table from disk and changes no byte |
| Driver.Fat32.Write | src/fat32.c:386-452 | cached table, every byte of the disk and the return code are those of the volume's write, in the layout of `EntryBytes` and `MapBytes`; 2 and no change for any cluster whose first entry is no directory's |
| Driver.Fat32.WriteFile | src/fat32.c:425-451 | the loop of write, on the bytes, is that of the volume |
| Driver.Fat32.Delete | src/fat32.c:477-517 | cached table, every byte of the disk and the return code are those of the volume's delete; 1 and no change for any cluster and name without a match |
| Driver.Fat32.DeleteFile | src/fat32.c:501-515 | the loop that unthreads and zeroes a chain, with the entry written last, removes exactly the file |
| Driver.Fat32.Read | src/fat32.c:288-316 | the return code, and in the caller's buffer the file's clusters followed by what was there; the volume is unchanged; 3 and an untouched buffer for any cluster and name without a match |
| Driver.Fat32.CopyChain | src/fat32.c:307-314 | following the chain terminates and copies its clusters in order to the start of the buffer |
| Driver.Fat32.ReadDirectory | src/fat32.c:319-336 | the return code and the table of the volume's read_directory, whose every entry `ReadDirectoryTells` describes; 2 for any cluster and name without a match |
| Driver.Fat32.FindClusterOf | src/fat32.c:250-257 | the cluster of the first match in whatever the parent cluster reads as, or 9999 |
| Driver.Fat32.Find | src/fat32.c:259-286 | terminates, and reports the directories of the breadth-first queue that hold the name, in queue order |
| Driver.Fat32.Expand | src/fat32.c:271-282 | appends exactly the subfolders of the directory at the front, in slot order, within the queue's bounds |
| Driver.Fat32.PrintDirPath | src/interrupt.c:123-141 | terminates at the root and prints the directories' own names on the way up |
| Shell.KeyIsName | src/command-shell.c:467-477 | a component is looked up by its own characters, filled up with zeroes to eight, and without an extension |
| Shell.KeysDiffer | src/command-shell.c:507-511 | different components are looked up by different keys |
| Shell.EnteredFolder | src/fat32.c:250-257 | a folder's name leads to a live directory whose parent is the one it was looked up in, and which is not the root |
| Shell.TrailLeadsToDir | src/command-shell.c:496-514 | the names of a trail lead to a live directory, to the root only if there are none, and dropping the last name leads to its parent |
| Shell.TrailNames | src/interrupt.c:123-141 | the names of a trail, as bytes, are in reverse those that are printed on the way up from its directory |
| Shell.ComponentCount | src/command-shell.c:479-490 | a path has one component more than slashes |
| Shell.ComponentsJoined | src/command-shell.c:467-477 | the components hold no slash and, joined by slashes, are the path again |
| Shell.FollowedPath | src/command-shell.c:498-514 | following a path whose components all name folders appends the path and a slash to what is printed |
| Shell.CountPath | src/command-shell.c:479-490 | the number of a path's components |
| Shell.GetDir | src/command-shell.c:467-477 | the component that starts at the index, and the index behind its delimiter |
| Shell.WholePath | src/command-shell.c:498-514 | the walk ends past the whole path, or before its last component if that names nothing |
| Shell.LookedUp | src/command-shell.c:508-511 | a lookup from the current directory fails exactly if the name is no folder, and otherwise extends trail, cluster and printed path together |
| Shell.Left | src/command-shell.c:730-733 | leaving a directory leads to the one it was entered from, and drops its name from the printed path |
| Shell.Shell.constructor | src/fat32.c:9-13 | the shell starts at cluster 2 and shows "Root/" |
| Shell.Shell.AddPath | src/fat32.c:111-120 | appends a name and a slash to the printed path |
| Shell.Shell.RemovePath | src/fat32.c:102-109 | takes exactly the last component off the printed path and never reads below it |
| Shell.Shell.UpdateShellDir | src/fat32.c:122-134 | cluster and table become those of the directory, and the path gains, loses or keeps its last component |
| Shell.Shell.GetLastCluster | src/command-shell.c:492-516 | enters the folders of a path one after the other; path, cluster and table stay those of one trail, and 9999 comes back exactly if the last name is missing |
| Shell.Shell.Cd | src/command-shell.c:706-742 | what is printed and where the shell is after cd with nothing, with .. and with a path: a path that is valid is appended to what is shown, .. leads to the parent and drops the last component, and at the root it changes nothing |
| Shell.Shell.CdAndBack | src/command-shell.c:706-742 | cd into a folder and cd .. restore the printed path, cluster and table |
| ContextSwitch.FrameHoldsContext | src/header/cpu/interrupt.h:146-151 | what lies on the stack when the handler is called is, read as its parameter, the context that was stored; the segments and the stack pointer that the processor pushed lie at their offsets behind it |
| ContextSwitch.Machine.EnterHandler | src/intsetup.s:5-52 | after the processor, the stub and the common handler the stack holds that frame above the old one, with the program's own stack pointer patched in exactly if its data segment has user privilege, and the segments are the kernel's |
| ContextSwitch.Machine.PopRegisters | src/intsetup.s:54-61 | popad and the segment pops put back the frame's registers, all but the stack pointer |
| ContextSwitch.Machine.LeaveHandler | src/intsetup.s:54-72 | every register put back is the frame's, the stack pointer and the two segments of the stack and the code being those the processor saved |
| ContextSwitch.Machine.InterruptAndReturn | src/intsetup.s:5-72 | an interrupt that does not switch gives back every register, segments included, and the stack |
| ContextSwitch.Machine.SwitchTo | src/kernel-entrypoint.s:115-141 | each of the ten registers loaded is that of the context given, with user segments |
| ContextSwitch.Machine.PreemptAndResume | src/intsetup.s:30-37 | a program interrupted, copied from the frame and switched to resumes with the ten registers it had exactly if its data segment has user privilege or the stack pointers are equal; all but the stack pointer are its own in any case |
| Preemption.TimerInterrupt | src/interrupt.c:289-299 | from the interrupt through the stack frame, the save to the current block, the switch and the load of the next block, or back through the handler's end: machine and process table are where a tick takes the system, so the registers loaded are those of the next process's block; with a data segment of privilege 0, as if the program had the kernel's stack pointer |
| Paging.AllocateKeeps | src/paging.c:73-113 | allocation takes the lowest free frame and maps it at that page, no other entry changes, and frames, entries and counters stay in agreement |
| Paging.ReleaseKeeps | src/paging.c:115-145 | exactly that entry and its frame are given up, and frames, entries and counters stay in agreement; next_free_frame still names the lowest free frame exactly if the release does not end an exhausted spell above it |
| Paging.StaleHintSharesFrame | src/paging.c:129-131 | after such a release the next allocation maps a frame that another entry still maps |
| Paging.HintOnRuns | src/paging.c:73-145 | on every run without such a release the free count counts the unmarked frames and the hint is the lowest of them |
| Paging.CreateDirectoryKeeps | src/paging.c:147-183 | while the free counter is positive the search finds an unused directory; its entry 0x300 becomes a present, writable 4 MiB page of kernel level for frame 0, it maps nothing else, and the counter stays within the number of unused ones |
| Paging.AllocateAllEffect | src/process.c:105-108 | allocating for fresh pages uses exactly that many frames and maps exactly those pages of that directory |
| Paging.ReleaseAllEffect | src/process.c:61-65 | releasing addresses of a directory unmaps exactly those |
| Paging.FreeDirectoryEffect | src/paging.c:185-209 | a directory given back maps nothing but the kernel, its frames are free, and no other entry or frame changes |
| Processes.Isolation | src/process.c:60-126 | a frame above the kernel's is in use exactly when a present user entry maps it; different entries map different frames; a mapping directory is in use and belongs to exactly one active process; such entries are writable 4 MiB pages of user level and never for frame 0 |
| Processes.InactiveFound | src/process.c:24-40 | the circular search downwards finds an inactive slot, and the current one only if all others are active |
| Processes.CurrentSlotTaken | src/process.c:24-40 | a new process takes the current slot exactly if its process is dead and all 15 others are active |
| Processes.NextFound | src/scheduler.c:29-32 | the circular search upwards finds an active slot |
| Processes.CeilDiv | src/process.c:46-58 | the least q with q * b >= a |
| Processes.FramesForFileAndStack | src/process.c:91 | the frames needed are ceil(size / 4 MiB) + 1 exactly if size < 0xFFC00000, and else at most one |
| Processes.NewProcess | src/process.c:105-123 | what a new process starts with: eip the load address, esp 0x400000, bits 1 and 9 of eflags set and no other bit changed, the four data segments 0x20, the seven general registers as the slot held them, the next id, Ready, and the addresses of its pages; no other block changes |
| Processes.CreateCodes | src/process.c:79-95 | 1 exactly if no slot is free; else 2 exactly if the load address is the kernel's; else 3 exactly if more than 8 frames are needed, or any with none free; a refusal changes nothing |
| Processes.CreateMemory | src/process.c:97-109 | a new process gets one unused directory, which maps the kernel, and exactly the frames it needs, mapped at exactly its pages; no other entry changes |
| Processes.CreateKeeps | src/process.c:77-126 | creation keeps frames, directories, process table and counters in order, also when it is refused |
| Processes.CheckIsWeak | src/process.c:91-95 | the checks pass exactly if a slot is free, the entry point lies below the kernel and at most 8 frames are needed: while a frame is free the memory check never refuses |
| Processes.CreatedFullyMapped | src/process.c:105-108 | all pages of a new process are mapped exactly if there were frames for all |
| Processes.DestroyMemory | src/process.c:60-75 | destroying takes exactly the process's frames and its directory, and nothing of any other's |
| Processes.DestroyKeeps | src/process.c:145-167 | destroying an active process keeps everything in order |
| Processes.DestroyedBlock | src/process.c:145-167 | the block of a destroyed process is dead and has no pages; all else in it, and every other block, stays |
| Processes.DestroyKeepsOnlyAlive | src/process.c:145-167 | destroying by an id that was given out keeps everything in order exactly if its process is alive |
| Processes.DestroyDead | src/process.c:60-75 | destroying by a dead process's id leaves the memory as it is exactly if no process owns its directory now; an owner keeps its block and loses the directory and every page |
| Processes.CreateThenDestroy | src/process.c:77-167 | creating and destroying a process restores frame map, free count, next_free_frame, directories and active count; in between ceil(size / 4 MiB) + 1 frames are taken, exactly if size < 0xFFC00000 |
| Scheduler.SaveKeeps | src/scheduler.c:17-22 | the current block has the context given, no other block changes, and everything stays in order |
| Scheduler.SwitchKeeps | src/scheduler.c:27-39 | after a switch exactly one active process is Running, it is the next active one and the current one, its directory is in use, maps the kernel and is loaded, and no saved context changed |
| Scheduler.SwitchedBlocks | src/scheduler.c:33-36 | a switch changes no block but by the states of the process it leaves, now Ready, and the one it goes to |
| Scheduler.RunKeeps | src/process.c:60-167 | isolation, the counters, the kernel's mapping in every directory in use and in the one loaded, and "at most one Running, and it is the current one" hold on every run of computations, creations, destructions and ticks |
| Scheduler.DirectoriesHandedOut | src/paging.c:161-172 | on every run the directories still to hand out are those at its start less the creations that returned 0, so there are never more creations than that |
| Scheduler.TickFaithful | src/interrupt.c:289-299 | a tick that switches puts on the processor the registers that the next process is to go on with, and leaves every other process's in its block |
| Scheduler.StartFaithful | src/process.c:98-123 | a creation leaves each process's registers in its block, and the running one's block current, exactly if some slot other than a dead current one is free |
| Scheduler.StepFaithful | src/interrupt.c:289-299 | every event keeps, in the block of each process that is off the processor, the registers it last left it with or was created with |
| Scheduler.PreemptionTransparent | src/interrupt.c:289-299 | on every run, the ten registers that a switch puts on the processor are those its process had when it last left the processor, or the first time those it was created with |
| Scheduler.StartOverwritten | src/scheduler.c:17-22 | whatever computes meanwhile, a new process keeps its starting registers through the next tick exactly if it did not get a dead current process's slot; if it did, it goes on with the dead program's registers |
| Scheduler.SwitchApproaches | src/scheduler.c:29-36 | a switch schedules an active process or comes strictly closer to it on the circle |
| Scheduler.BoundedWaiting | src/scheduler.c:27-39 | a process that stays active is scheduled within 16 switches, whatever is created and destroyed meanwhile |
| Scheduler.LoneProcessWaits | src/interrupt.c:290 | with one active process, ticks and computations leave the kernel as it is and no other slot gets the processor |
| Scheduler.TicksSwitch | src/interrupt.c:290-298 | with more than one, every tick is a switch |
| Scheduler.TimerDispatches | src/interrupt.c:289-299 | over runs of computations and at least 16 ticks, an active process off the processor gets it exactly if more than one process is active |
| Scheduler.LinkedInOrder | src/paging.c:35-42 | the kernel's data as linked is in order |
| Scheduler.Booted | src/process.c:77-126 | creating the first program and switching to it gives a state from which runs start, with 31 frames less the program's and 31 directories left; the program starts at its load address with esp 0x400000, eflags 0x202 and zeroes |
| KernelWitnesses.LoneProcessReached | src/interrupt.c:290 | after booting, starting a second program and ending the first, the second is active and gets the processor on no run of ticks |
| KernelWitnesses.DeadSlotReached | src/process.c:24-40 | after booting, starting fifteen more and ending the current one, a program is accepted and the only slot for it is the dead current one |
| KernelWitnesses.DeadIdReached | src/interrupt.c:217-218 | after booting, starting a second program, a tick, ending the first and starting a third, destroying id 1 takes every page of the third |
| KernelWitnesses.WeakCheckReached | src/process.c:92 | after booting and starting two more programs of eight frames, a fourth is accepted and one of its pages stays unmapped |
| KernelWitnesses.NoFrameReached | src/process.c:91 | a program of size 0xFFC00000 is accepted at once and needs no frame |
| KernelWitnesses.MisleadingReleaseReached | src/paging.c:129-131 | a run of sound allocations and releases leads to a release after which the next allocation maps a frame that is still mapped |
| KernelDriver.PageManager.constructor | src/paging.c:35-42 | the page manager starts with all frames but the kernel's free |
| KernelDriver.PageManager.AllocateUserPageFrame | src/paging.c:73-113 | the whole new state is that of the allocation step; false exactly without a free frame |
| KernelDriver.PageManager.FreeUserPageFrame | src/paging.c:115-145 | the whole new state is that of the release step; false exactly if the entry was not present |
| KernelDriver.PageManager.CreateNewPageDirectory | src/paging.c:147-183 | the lowest unused directory, which maps the kernel afterwards and is changed in entry 0x300 only, or NULL and no change when the counter is 0 |
| KernelDriver.PageManager.FreePageDirectory | src/paging.c:185-209 | the whole new state after the sweep over the present user entries |
| KernelDriver.ProcessTable.GetInactiveIndex | src/process.c:24-40 | the loop terminates with the slot the circular search downwards finds |
| KernelDriver.ProcessTable.AllocateFrames | src/process.c:105-108 | the loop makes one allocation for each address, in order |
| KernelDriver.ProcessTable.CreateUserProcess | src/process.c:77-126 | return code (`CreateCodes`) and whole new state (`NewProcess`, `CreateMemory`), for each refusal and also when the frames do not suffice |
| KernelDriver.ProcessTable.SaveContext | src/scheduler.c:17-22 | the context of the current block and nothing else changes |
| KernelDriver.ProcessTable.NextActive | src/scheduler.c:29-32 | the loop terminates with the next active slot |
| KernelDriver.ProcessTable.SwitchToNextProcess | src/scheduler.c:27-39 | the whole new state, and the context that is resumed is the new current block's |
| KernelDriver.ProcessTable.Tick | src/interrupt.c:289-299 | with more than one active process the frame is saved and a switch made; else the interrupted context goes on and nothing changes |
| KernelDriver.ProcessTable.ReleaseMemory | src/process.c:60-75 | the recorded addresses are released in order, then the directory, and the block's list is emptied |
| KernelDriver.ProcessTable.DestroyProcess | src/process.c:145-167 | false and no change for an unknown id; else the whole new state, for the id of an active and of a dead process |
| Strings.WordsAreRuns | src/string.c:154-221 | the starts and ends counted are exactly the bounds of the maximal runs of non-spaces, from left to right |
| Strings.CountWords | src/string.c:154-165 | the number of maximal runs, except exactly on a single character that is no space |
| Strings.WordLen | src/string.c:167-195 | the length of the run, one more if a single final space follows it |
| Strings.GetWord | src/string.c:197-221 | the buffer holds that piece of the string and a terminator, and is as before behind it |
| Strings.WordIsExact | src/string.c:197-221 | the piece is the word itself exactly if the word is not followed by one last space |
| Strings.AddTrailingNull | src/string.c:119-122 | the range is filled with terminators and the rest is as before |
| Strings.Padded | src/string.c:124-152 | character i of a name in its buffer: the name's own below its length, a terminator behind |
| Strings.ParseFileName | src/string.c:124-152 | the return code, 0 exactly if the part before the first dot has at most 8 and the part behind it at most 3 characters; the padded parts in the buffers, the second only if the first is short enough, and nothing behind them |
| Strings.FormatThenParse | src/string.c:124-152 | a dot-free name and any extension, put together with a dot, come apart into the same two parts |
| Strings.Accepted | src/string.c:124-152 | what is accepted is exactly n or n.e with n dot-free of at most 8 and e of at most 3 characters |

## Left out

- Driver.Fat32.Write: a parent that holds a file's data which happens to look like a directory (its twelfth byte is 16) is outside the precondition; the code takes it for one.
- Driver.Fat32.Delete: a file's data, or an all-zero name, in which the code does find a match is outside the precondition; an unused slot matches the all-zero name and leads the code to cluster 0 and past the end of the table.
- Driver.Fat32.Read: the same two cases; with the all-zero name the chain loop indexes the table with the value of cell 0, far outside it.
- Driver.Fat32.ReadDirectory: the same two cases.
- Driver.Fat32.Find: more than 100 directories or 50 hits overrun the code's arrays and are outside its precondition.
- Shell.Shell.GetLastCluster: paths with a component that names a file, which the code enters as if it were a folder, or that names nothing before the end, after which the code reads cluster 9999.
- Shell.Shell.Cd: the same paths; and the volume is fixed while the shell walks, so a current directory that is deleted under the shell is not modelled. The word that is cut from the command line is a parameter.
- KernelDriver.ProcessTable.CreateUserProcess: a creation with no directory left, for which the code writes through a null pointer; and the program image that `read` copies into the new pages. User memory contents are not modelled at all; the file system and the kernel are separate states.
- KernelDriver.ProcessTable.DestroyProcess: id 0, which matches slots that never had a directory, and the machine's exit with the last process; runs end there.
- ContextSwitch.Machine.SwitchTo: the page directory pointer of the context is not loaded by this routine; the directory in use is the field `cr3` of the kernel.
- Some C procedures are split into several methods (`WriteFile`, `DeleteFile`, `CopyChain`, `Expand` and others); these have no procedure of their own in the code.
- Values that the code passes by pointer (requests, tables, names) are parameters and results here; the buffers that it fills in place are arrays. Request buffers are taken to lie outside the disk image.
- The code keeps no record of who refers to a cluster or a frame and never checks it; `own` and `users` exist in the model only.
- Clusters from 512 on are never allocated by the code; the model says that they stay zero.
- Integers: 32-bit cells, sizes and addresses are ranges, and the one sum that can wrap, the size of a program plus a page, wraps. Process ids and counters are unbounded.
- `ceil` works on doubles; the model uses reals, as the quotient by 2048 of a 32-bit number is exact in both.
- Time and date stamps of entries are carried along and never set, as in the code.
- Disk controller ports, interrupt controller, timer and clock programming, segment tables, the translation cache and page faults: hardware effects.
- Frame buffer, keyboard, splash screen and clock: user interface.
- `copy`, `cp`, `mv`, `rm`, `mkdir`, `ls`, `cat` and the other shell commands: sequences of system calls around ignored return codes.
- `strtok`, `memset`, `memcpy`, `memcmp`, `strlen`, `strcpy` and comparisons of strings: easy library members, taken as operations on sequences.
- Validity of user pointers, buffers that are too small, and command lines longer than their arrays.
