# OSu_chan: a verified model of the file system, the shell's walks, the tokenizer, the scheduler and the frame allocator

This project models the kernel's FAT file system driver and what stands on it, in the form the C code has (a driver
object with a cached allocation table and a directory buffer, updated in place, over a byte array that is the disk), and
proves what the driver is for:

* after any run of calls and power failures every used cluster is reserved, belongs to the chain of exactly one live
  entry, or was in flight at a crash; chains are acyclic and disjoint (`Runs`, `Ownership`, `Safety`);
* every run is a run of a plain map from (directory, name, extension) to files and directories, with the right return
  codes; a crash leaves the map before the interrupted call or the one after it, but for the bytes of a file that was
  being written, which are given exactly (`Refinement`, `Answers`, `Persistence`);
* what a file write was given is what a later read delivers, whatever calls and crashes come in between, as long as no
  deletion takes the file's entry; which deletions do is decided exactly (`Persistence`);
* what each call returns and which bytes it writes where is also stated in the bytes of the disk alone, at the offsets
  of the on-disk structures (`OnDisk`, `DiskBytes`);
* directories form a tree with correct back-pointers throughout shell sessions; `cd`, `cwd` and `find` do what the tree
  says, and `rm` takes back what `mkdir` made (`DirectoryTree`, `Sessions`, `ShellRoundTrip`, `WorkingPath`, `Search`);
* `strtok` hands out the maximal delimiter-free runs although it overwrites its input; reversing a path reverses its
  components (`Tokenizer`, `StringLibrary`);
* the scheduler is fair within 16 ticks and resumes each process with the context it was preempted with (`Scheduler`);
* the frame allocator never hands out a frame twice (`Paging`).

## How it is put together

`Operations` says what each driver call does as a function of the cached table, the disk and the request: the return
code, the new cached table, and the cluster writes in the order they reach the disk. `FatDriver.Driver` is the driver
itself; each of its methods is proved to do exactly that, including the order of its writes. Everything about runs,
crashes and callers is then proved of `Operations`.

The disk is a sequence of 2048-byte clusters over a flat byte array (`BlockDevice`), and one cluster write is atomic: a
crash may fall between any two of them. After a crash the driver is initialised from the disk again, and every call is
proved to leave the signature alone by which it knows the disk. A table on the disk is the one whose bytes fill its
cluster (`OnDisk`), so every cluster, whatever was last written to it, reads as a table.

The invariant is `Ownership.Inv`. Its witness, a `Layout`, gives the chain of each live entry, the owner of each cluster,
the slot that enters each directory, the depth of each directory, and the clusters that crashes have leaked. The layout
is determined by the disk (`Persistence.LayoutUnique`), so nothing about a run depends on how it was chosen.

## Where the code is not what its comments or its callers promise

The model follows the code. These are proved, each with the exact condition under which the promise holds; `Witnesses`
has calls on a freshly formatted disk for which it does not:

* `create_fat32` flushes the allocation table before it fills in the first three entries (src/fat32.c:172, 179-181), so
  cached and stored table agree after initialising if and only if the disk had been formatted before
  (`Formatting.RestartCoherentIffFormatted`, `FatDriver.Driver.Initialize`). The first call after formatting sets this
  right if and only if it is a write of a new key with no more than the 509 free clusters, and for a directory the first
  of these shows no entries (`FirstCallExact`). The boot sequence reads a file first (src/kernel.c:24, 38), which reloads
  the empty table, and the file it writes next goes over clusters 0 and 1 (`NextWriteOverwritesTheDisk`).
* `write` publishes a file's entry before its data (src/fat32.c:674, 676-684), so a file write is not atomic: a crash in
  between leaves the file with the bytes written so far and the clusters' old bytes behind them. What is found is the
  map before the call or the one after it if and only if the bytes not yet written were on the disk already
  (`Persistence.CrashIsAtomicIff`, `Witnesses.CrashTearsFile`). mkdir and deletions are atomic.
* `write` does not clear a new directory's cluster but reads it back (src/fat32.c:558). On a disk without leaks mkdir
  keeps the file system well formed if and only if the reused cluster shows no entry from slot 2 on; where crashes have
  leaked clusters it can also do so by taking leaked clusters over, and never otherwise (`CleanClusters.MkdirExact`; for
  an interrupted mkdir, write by write, `MkdirCrashExact`). From the first creation on a zeroed disk on
  (`Formatting.FirstCreation`) no reused cluster shows one in runs and sessions that delete no file
  (`QuietRunIsPossible`, `Sessions.CalmSessionIsPermitted`); after a file has been deleted it depends on that file's bytes
  (`Reclamation.MkdirAfterDelete`, `Witnesses.DeletedFileSpoilsMkdir`).
* `delete_something` compares over the length of the requested name (src/fat32.c:736) while `write` compares whole names
  (src/fat32.c:488), so deleting a name can take an earlier entry that the name is a prefix of: exactly then it does not
  take the named one (`Answers.DeleteTakesTheNamedKey`), and exactly then write followed by delete is not the identity on
  the allocation table (`Reclamation.WriteThenDelete`, `Witnesses.DeletionTakesAnother`). A call removes a key if and only
  if it is a deletion whose first match that key's entry is, and not a directory with entries
  (`Persistence.CallRemovesIff`); a key lasts through a run if and only if no event does that (`RunSparesIff`).
* The empty name, which `rm` asks for when its line has no parts, also matches entries that are not in use. A deletion
  that ends leaves the disk well formed if and only if the entry it takes is in use or leads only to leaked clusters,
  which are then given back (`Reclamation.DeleteExact`, `Witnesses.EmptyNameReclaims`). On a fresh disk it follows a
  cluster number out of the allocation table (`Witnesses.EmptyNameIsUnsafe`), and later it can free another file's
  clusters (`Witnesses.EmptyNameFreesAnotherFile`).
* A file that needs one cluster is given two when the cluster after the first free one is free (src/fat32.c:631-645;
  `Chains.AllocationCharacterized`), and then two are copied from its buffer.
* `cd` compares names without extensions over all slots, so a file, the directory's own entry or its parent's can hide a
  subdirectory; a name that begins with two dots always means the parent (src/helper/cd.c:35, 55-83). The path that `cwd`
  prints, where it fits its 256 bytes and no name on it is empty or has a slash, leads back if and only if no directory
  on it is hidden in one of these ways and none has bytes behind the first zero of its name
  (`WorkingPath.PrintedPathReturns`, `Witnesses.FileHidesDirectory`).
* `rm` and `find` copy eight and three bytes from each part of the line on, whatever follows it there; the field is the
  part padded with zeros, as entries on the disk have it, if and only if the line has zeros behind the byte that ended
  the part (src/helper/rm.c:39-40; `Sessions.RmMeans`, `PaddedIff`).
* `find` does not stop where a directory's name has matched but goes on in that directory (src/helper/find.c:142-208):
  the place that it reports is that directory itself if and only if no subdirectory comes before the first file whose name
  begins as the query's, and otherwise one below (`Search.Finder.Dfs`).

## Model

| member | source | states |
|---|---|---|
| OnDisk.EntryBytes | src/header/filesystem/fat32.h:81-97 | A directory entry is 32 packed little-endian bytes from which it can be read back |
| OnDisk.EntryBytesOf | src/header/filesystem/fat32.h:81-97 | Every 32-byte record is the image of the entry read from it |
| OnDisk.TableBytes | src/header/filesystem/fat32.h:100-102 | A directory table written to a cluster reads back as itself |
| OnDisk.TableBytesOf | src/header/filesystem/fat32.h:100-102 | Writing back the table read from any cluster restores its bytes |
| OnDisk.FatBytes | src/header/filesystem/fat32.h:57-59 | The allocation table written to a cluster reads back as itself |
| OnDisk.FatBytesOf | src/header/filesystem/fat32.h:57-59 | Writing back the allocation table read from any cluster restores its bytes |
| OnDisk.EntryFormat | src/header/filesystem/fat32.h:81-97 | Name, extension, marks, cluster number and size of an entry are at these offsets of its 32 bytes, and what the marks mean |
| OnDisk.TableFormat | src/header/filesystem/fat32.h:100-102 | A directory's cluster holds its 64 entries one after the other |
| OnDisk.FatFormat | src/header/filesystem/fat32.h:57-59 | The allocation table's cluster holds 512 words, lowest byte first |
| BlockDevice.Device.ReadBlocks | src/external-inserter.c:13-21 | Delivers the addressed blocks of the image into the buffer and changes nothing else |
| BlockDevice.Device.WriteBlocks | src/external-inserter.c:23-31 | Replaces exactly the addressed blocks of the image by the buffer's bytes |
| BlockDevice.Device.ReadCluster | src/fat32.c:237-240 | Delivers one cluster of the disk |
| BlockDevice.Device.WriteCluster | src/fat32.c:224-227 | Replaces one cluster of the disk and no other, as one entry of the write log |
| CString.Memcpy | src/stdlib/string.c:12-18 | The destination is its old bytes with the source's bytes spliced in |
| CString.Memcmp | src/stdlib/string.c:20-31 | Zero exactly for equal prefixes; otherwise the sign of the first difference |
| CString.Strlen | src/stdlib/string.c:47-55 | The number of bytes before the first zero |
| Chains.ChainAcyclic | src/fat32.c:326-339 | A chain that ends in the end-of-file mark visits no cluster twice |
| Chains.ChainUnique | src/fat32.c:323-339 | The head determines the whole chain |
| Chains.ChainsMeetOnlyInTails | src/fat32.c:326-339 | Two chains that share a cluster agree from there to the end |
| Chains.FreeBelowLists | src/fat32.c:610-619 | The free list holds exactly the empty entries, in ascending order |
| Chains.ScanResult | src/fat32.c:607-645 | Wherever the linking scan stops, the free clusters passed so far are the allocation, or there are too few in all |
| Chains.AllocationCharacterized | src/fat32.c:595-650 | An allocation takes the lowest free clusters, ascending; it succeeds exactly when the rounded-up number is free; it has that length, or two clusters for a one-cluster file whose neighbour is free |
| Chains.AllocationLinks | src/fat32.c:631-650 | The allocated clusters, linked in order and ended, form a chain, and no other entry changes |
| Chains.UndoneStep | src/fat32.c:690-695 | Each step of the undoing meets the next link of the partial chain and stops at its open end |
| Chains.UndoneAll | src/fat32.c:688-697 | With the partial chain undone, the table is what it was before the scan |
| Chains.ReleaseStep | src/fat32.c:863-869 | Each step of the freeing walk meets the next link although it clears the one behind it |
| Chains.ReleaseUndoesLink | src/fat32.c:650-650 | Linking free clusters and releasing them is the identity on the table |
| FatDriver.Driver.constructor | src/fat32.c:94-94 | The driver state, table and directory buffer, starts out zeroed |
| FatDriver.Driver.Initialize | src/fat32.c:203-214 | A formatted disk's table is loaded and any other disk is formatted; the cached table agrees with the stored one afterwards if and only if the disk was formatted before, or the cached table already had its first three entries |
| FatDriver.Driver.IsEmptyStorage | src/fat32.c:146-158 | True exactly when the boot sector is not the signature |
| FatDriver.Driver.CreateFat32 | src/fat32.c:165-197 | The formatted disk, with the allocation table as it was before its first entries were set |
| FatDriver.Driver.InitDirectoryTable | src/fat32.c:125-139 | An otherwise empty table with a name in slot 0 and the parent's cluster in slot 1 |
| FatDriver.Driver.Write | src/fat32.c:454-704 | Code, cached table, disk and order of writes are those of Operations.Write |
| FatDriver.Driver.MakeDirectory | src/fat32.c:505-588 | The directory half: first-fit cluster, then table, parent and child written in this order |
| FatDriver.Driver.InitChildTable | src/fat32.c:558-588 | Only slots 0 and 1 of whatever the cluster held are filled in |
| FatDriver.Driver.MakeFile | src/fat32.c:593-697 | The file half: table, parent and then the data clusters in chain order, or nothing at all |
| FatDriver.Driver.AllocateChain | src/fat32.c:606-650 | Links the allocation, or leaves the table exactly as it was when there are too few free clusters |
| FatDriver.Driver.LinkFree | src/fat32.c:627-645 | The scan has linked exactly the free clusters below where it stopped |
| FatDriver.Driver.UndoChain | src/fat32.c:688-695 | Terminates and restores the table from before the scan |
| FatDriver.Driver.FirstFree | src/fat32.c:610-619 | The lowest free cluster, or the end of the table when there is none |
| FatDriver.Driver.WriteContents | src/fat32.c:676-684 | Copies the buffer to the chain's clusters in order |
| FatDriver.Driver.Delete | src/fat32.c:712-883 | Code, cached table, disk and order of writes are those of Operations.Delete |
| FatDriver.Driver.FindMatch | src/fat32.c:731-751 | The first slot from 2 on whose name starts with the requested one and whose extension is equal |
| FatDriver.Driver.RemoveDirectory | src/fat32.c:766-837 | Refuses a directory with live slots; otherwise parent, child and table are written in this order |
| FatDriver.Driver.RemoveFile | src/fat32.c:840-875 | Blanks the entry, frees the chain, writes parent and then table |
| FatDriver.Driver.FreeChain | src/fat32.c:861-872 | Terminates and empties exactly the chain it walks while overwriting it |
| FatDriver.Driver.Read | src/fat32.c:293-354 | Reloads the table, then delivers the file's whole clusters in chain order, or the code |
| FatDriver.Driver.ReadContents | src/fat32.c:319-339 | The buffer gets the chain's clusters in order; the bytes behind stay |
| FatDriver.Driver.ReadDirectory | src/fat32.c:254-285 | Delivers the table of the first slot whose name starts with the request's, if it is a directory's |
| Operations.StartsWithMeans | src/fat32.c:736-736 | Comparing over the requested name's length tells whether it is a prefix of the entry's name, as C strings |
| DiskBytes.WriteCodes | src/fat32.c:454-704 | A write's code, from the parent's bytes, the number of free clusters and the size alone; a write that fails changes nothing |
| DiskBytes.MkdirWrites | src/fat32.c:528-588 | The three clusters that mkdir writes, byte by byte: the table with one more entry, the parent with one more record of size 0, and the reused cluster with its first two records filled in |
| DiskBytes.FileWrites | src/fat32.c:595-684 | The clusters that a file write writes, byte by byte: the table with the lowest free clusters linked, the parent with one more record, then the buffer, 2048 bytes to a cluster |
| DiskBytes.DeleteRefuses | src/fat32.c:728-751 | When a deletion returns -1 or 1, from the parent's bytes alone; one that fails changes nothing |
| DiskBytes.RmdirWrites | src/fat32.c:766-837 | A directory that shows an entry is refused; otherwise its record and its own first two are cleared and its cluster is given back, byte by byte |
| DiskBytes.RemoveWrites | src/fat32.c:840-875 | A file's record is cleared but for cluster number and size, and exactly the clusters of its chain are marked free |
| DiskBytes.ReadCodes | src/fat32.c:293-354 | A read's code, from the parent's bytes and the buffer's size alone, and that it reloads the cached table |
| DiskBytes.ReadDelivers | src/fat32.c:319-339 | A read that succeeds delivers every cluster of the chain on the disk, whole and in order |
| DiskBytes.ReadDirectoryDelivers | src/fat32.c:254-285 | read_directory's code, and that it delivers the cluster in the first record whose name starts with the requested one |
| DiskBytes.SignatureIs | src/fat32.c:9-92 | The 512 bytes of the boot sector of a formatted disk |
| DiskBytes.BootWrites | src/fat32.c:165-214 | Initialising loads the table of a disk with the signature and leaves any other formatted as stated, byte by byte |
| Ownership.Reserve | src/fat32.c:528-531 | Linking free clusters keeps the invariant with them counted as leaked |
| Ownership.AttachFile | src/fat32.c:655-674 | Entering a file with a reserved chain keeps the invariant |
| Ownership.AttachDir | src/fat32.c:533-588 | Entering a directory on a reserved cluster keeps the invariant if its table shows no entries |
| Ownership.DetachFile | src/fat32.c:845-859 | Blanking a file's entry keeps the invariant and leaks its chain |
| Ownership.DetachDir | src/fat32.c:796-811 | Blanking the entry of a directory without entries keeps the invariant and leaks its cluster |
| Ownership.Unleak | src/fat32.c:863-872 | Emptying leaked clusters keeps the invariant |
| Safety.FileCrash | src/fat32.c:653-684 | After any prefix of a file write's disk writes the disk is well formed; only the new chain can have leaked |
| Safety.FileDone | src/fat32.c:593-700 | A finished file write keeps the invariant, leaks nothing, and cached and stored table agree |
| Safety.DirCrash | src/fat32.c:528-588 | After k of mkdir's disk writes the disk is well formed, if the reused cluster's old table is what it must be after so many: without entries from the second write on, and before the last one not another directory's; only the new cluster can have leaked |
| Safety.DirDone | src/fat32.c:503-588 | A finished mkdir keeps the invariant, leaks nothing, and the tables agree |
| Safety.NamedHitsLive | src/fat32.c:731-751 | A deletion with a name takes an entry that is in use |
| Safety.DeleteIsSafe | src/fat32.c:728-764 | A deletion that takes an entry in use finds it heading a proper chain |
| Safety.FileDeleteSteps | src/fat32.c:840-875 | The disk is well formed after each write of a file deletion; only the victim's chain can leak |
| Safety.DirDeleteSteps | src/fat32.c:796-837 | The disk is well formed after each write of a directory deletion; only the victim's cluster can leak |
| Runs.CallSparesBoot | src/fat32.c:531-874 | No call writes to the boot sector's cluster |
| Runs.CallKeepsInvariant | src/fat32.c:293-883 | Every call that may return, whatever its code, keeps the invariant, cache coherence and the boot signature, and leaks nothing; only a mkdir that succeeds on a cluster with entries may not |
| Runs.CrashKeepsInvariant | src/fat32.c:203-874 | Initialising the driver after any prefix of a call's writes loads the disk's own table and finds a well-formed disk; only clusters in flight have leaked |
| Runs.RunIsSafe | src/fat32.c:203-883 | After any run of calls and crashes, each followed by initialising, the system is well formed and coherent, and only what was in flight at a crash has leaked |
| Runs.ExactOwnership | src/fat32.c:509-874 | In a crash-free run from a system without leaks the used clusters are the reserved ones and the disjoint acyclic chains of the live entries |
| Runs.SizesInRuns | src/header/filesystem/fat32.h:79-95 | After any run of calls and crashes directories have size 0, and a file's chain holds its size |
| Refinement.ContentsOfDataWrites | src/fat32.c:676-684 | Writing a chain cluster by cluster and reading it in the same order gives the data back |
| Refinement.FileWriteRefines | src/fat32.c:593-700 | A file write binds a free key to the first bytes of the buffer and touches no other key |
| Refinement.FileCrashView | src/fat32.c:653-684 | After a crash inside it the key is absent, or bound to the bytes written so far with the old bytes of the other clusters behind them; other keys are untouched |
| Refinement.MkdirRefines | src/fat32.c:503-588 | mkdir binds a free key to a directory that has no entries and no other key, and touches no other key |
| Refinement.DeleteViewAt | src/fat32.c:753-875 | From a deletion's first write on exactly the matched key is gone |
| Answers.FullWhenCounted | src/fat32.c:462-482 | A directory counts as full exactly when it holds 62 keys |
| Answers.WriteAnswers | src/fat32.c:449-704 | write's code and effect, in terms of the callers' map |
| Answers.DeleteAnswers | src/fat32.c:706-883 | delete's code and effect, in terms of the callers' map and the first matching entry |
| Answers.SoleMatchIsTaken | src/fat32.c:731-751 | In terms of the map alone: a bound key that no other key matches is the one deleted |
| Answers.DeleteTakesTheNamedKey | src/fat32.c:731-751 | A deletion takes the named key if and only if no earlier entry matches by prefix |
| Answers.ReadAnswers | src/fat32.c:287-354 | read's code and bytes, in terms of the callers' map |
| Answers.CallSimulates | src/fat32.c:287-883 | Each call is its operation on the callers' map, with the right answer |
| Persistence.RunSimulates | src/fat32.c:203-883 | Each run of calls and crashes is a run of the map's operations, with the map after each crash given exactly |
| Persistence.LayoutUnique | src/fat32.c:287-354 | The disk determines directories, chains, owners, leaks and so the callers' map |
| Persistence.CrashIsExact | src/fat32.c:531-874 | The map that a crash after k writes leaves: a deletion is done with its first write, a mkdir with its second, and a file is there from its second write on with as many bytes as were written |
| Persistence.CrashIsAtomicIff | src/fat32.c:653-684 | It is the map before the call or the one after it if and only if no file's data was being written or the bytes not yet written were there already |
| Persistence.HeadsAfter | src/fat32.c:558-588 | No call, finished or not, changes slots 0 and 1 of a directory that stays |
| Persistence.CallRemovesIff | src/fat32.c:728-875 | A call removes a bound key if and only if it is a deletion whose first match is that key's entry, and not a directory with entries; it never binds it to something else |
| Persistence.RunSparesIff | src/fat32.c:454-883 | A key keeps its node throughout a run of calls and crashes if and only if no event removes it |
| Persistence.ApartIsKept | src/fat32.c:731-751 | So it does in any run whose deletions do not match it by prefix |
| Persistence.RoundTrip | src/fat32.c:287-354 | A read after a successful write, with any calls and crashes between that do not remove the file, returns 0 and the bytes written |
| CleanClusters.MkdirExact | src/fat32.c:558-588 | On a disk without leaks mkdir leaves a well-formed disk if and only if the reused cluster shows no entry from slot 2 on; on any disk it leaks nothing, and if there is an entry it can only be well formed with fewer leaks |
| CleanClusters.MkdirCrashExact | src/fat32.c:528-588 | For each k, a mkdir interrupted after k disk writes on a disk without leaks leaves a well-formed disk if and only if the reused cluster's old table is what it must be after so many |
| CleanClusters.CleanAfterRmdir | src/fat32.c:796-837 | rmdir leaves behind a cluster that mkdir can reuse |
| CleanClusters.EventKeepsClean | src/fat32.c:454-883 | Every call and crash but a completed file deletion keeps all free clusters clean |
| CleanClusters.QuietRunIsPossible | src/fat32.c:454-883 | In a run without file deletions mkdir's condition always holds |
| CleanClusters.CleanAfterCreation | src/fat32.c:505-684 | A creation keeps all free clusters clean also where cached and stored table did not agree |
| Reclamation.WriteThenDelete | src/fat32.c:606-874 | Write then delete is the identity on the allocation table if and only if no earlier entry matches the name |
| Reclamation.WriteThenDeleteView | src/fat32.c:606-874 | Write then delete, where nothing shadows the name, is the identity on the callers' map |
| Reclamation.MkdirAfterDelete | src/fat32.c:558-558 | A directory made right after, on a disk without leaks, is well formed if and only if the deleted file's first cluster reads as a table without entries; on any disk it leaks nothing |
| Reclamation.DeleteExact | src/fat32.c:728-875 | A deletion leaves the disk well formed if and only if the entry that it takes is in use or leads only to leaked clusters; in the first case the leaks are the same, in the second these are given back |
| Formatting.FormattedIsWellFormed | src/fat32.c:165-197 | Formatting sets up the invariant between cached table and directories |
| Formatting.FormattedIsIncoherent | src/fat32.c:172-181 | The stored table is all empty and differs from the cached one |
| Formatting.RestartCoherentIffFormatted | src/fat32.c:165-214 | After power-on cached and stored table agree if and only if the disk had been formatted before |
| Formatting.CreationIsCoherent | src/fat32.c:531-653 | Any creation makes cached and stored table agree |
| Formatting.FirstCallExact | src/fat32.c:293-883 | The first call on a fresh disk leaves a good system if and only if it is a write of a new key with at most 509 clusters, for a directory on a cluster without entries |
| Formatting.FirstCreation | src/fat32.c:165-704 | On a zeroed disk that has been formatted the first creation in the root leaves a good system, a tree, clean free clusters and the shell ready at the root |
| Formatting.FirstReadForgetsTheTable | src/kernel.c:24-38 | On a fresh disk the boot sequence's read empties the cached table, whatever it asks for |
| Formatting.BootFileTakesTwo | src/kernel.c:41-55 | The file that it writes next copies two clusters, from a buffer of one |
| Formatting.NextWriteOverwritesTheDisk | src/kernel.c:49-57 | The file that the boot sequence writes next is put over clusters 0 and 1, after which no layout fits |
| Witnesses.DeletedFileSpoilsMkdir | src/fat32.c:558-588 | On a fresh disk, writing a file that reads as a table with an entry, deleting it and making a directory leaves no well-formed disk |
| Witnesses.DeletionTakesAnother | src/fat32.c:731-751 | Deleting a.txt where ab.txt was created before takes ab.txt, and the table is not what it was |
| Witnesses.CrashTearsFile | src/fat32.c:674-684 | Any file write that succeeds can be torn: with some buffer a crash after its second disk write shows neither map |
| Witnesses.FileHidesDirectory | src/helper/cd.c:55-83 | A directory made next to a file of the same name is entered by no argument of cd, and its printed path does not lead back |
| Witnesses.EmptyNameIsUnsafe | src/fat32.c:861-869 | On a fresh disk a deletion by the empty name follows the cluster number of an unused entry out of the allocation table |
| Witnesses.EmptyNameFreesAnotherFile | src/fat32.c:731-875 | After a run of four calls on a zeroed formatted disk it releases the chain of ab.txt in another directory and leaves no well-formed disk |
| Witnesses.EmptyNameReclaims | src/fat32.c:731-875 | After a crash inside the deletion of a.txt it takes an unused entry and leaves the disk well formed |
| DirectoryTree.MkdirKeepsTree | src/helper/mkdir.c:5-36 | mkdir with the current directory's name as the parent's keeps every directory labelled with its own and its parent's cluster and name |
| DirectoryTree.DeleteKeepsTree | src/fat32.c:753-875 | Deletion keeps the labels of the directories that stay |
| DirectoryTree.FileKeepsTree | src/fat32.c:593-700 | Writing a file keeps the labels |
| Sessions.ReadDirectoryInTree | src/fat32.c:243-285 | In a tree every request is answered with a live directory, this one, its parent or one entered here, or with a file, or with nothing exactly when the requested name is a prefix of no slot's, as C strings |
| Sessions.CdInTree | src/helper/cd.c:6-97 | cd leads to the parent (always, after two dots), to a subdirectory or nowhere (always, when no slot has the name), and the cached name is the name of where it leads |
| Sessions.CdExact | src/helper/cd.c:33-83 | By the first slot that has the argument as its name, cd stays at a file's or its own, goes to the parent at slot 1 and to the directory that is entered there at any other; two dots at the start mean the parent; a name that no slot has changes nothing |
| Sessions.CdMoves | src/helper/cd.c:6-97 | cd changes the current directory and the cached name together, and nothing else |
| Sessions.CdEntersChild | src/helper/cd.c:33-83 | cd enters a subdirectory if and only if the argument is its name, does not begin with two dots and names no earlier slot |
| Sessions.PathReturns | src/helper/cd.c:33-83 | cd along the components of a path from the root ends there if and only if each directory on it is found by its printed name |
| Sessions.WalkUp | src/helper/pwd.c:65-103 | Following slot 1 reaches the root after exactly as many steps as the directory is deep, with each ancestor's name |
| Sessions.RmMeans | src/helper/rm.c:17-93 | The request's name and extension are the line's first and second part as C strings, their bytes are those of the line from there on with a zero behind the part, and a line of at most one part asks for an extension of three zeros |
| Sessions.RmRefuses | src/helper/rm.c:24-76 | Refused are exactly the lines with a part that is too long and single parts that begin with "shell" |
| Sessions.PaddedIff | src/helper/rm.c:39-40 | A field copied from the line is its part padded with zeros if and only if the line has zeros behind the byte that ended the part |
| Sessions.CommandKeepsReady | src/helper/rm.c:22-93 | Every command leaves a tree, and the current directory a live one with its cached name; nothing leaks; an rm line without parts only if the entry it takes is in use |
| Sessions.SessionKeepsTree | src/user-shell.c:24-60 | Over whole sessions of cd, mkdir, rm and file writes the tree stays a tree and the current directory a live one with its cached name |
| Sessions.CalmSessionIsPermitted | src/user-shell.c:24-60 | A session that deletes no file, started with clean free clusters, is permitted throughout: no mkdir in it meets a cluster with entries |
| ShellRoundTrip.MkdirBinds | src/helper/mkdir.c:5-36 | Unless it changes nothing, mkdir binds the name without extension to a new, empty directory in the current one |
| ShellRoundTrip.RmUndoesMkdir | src/helper/rm.c:67-93 | rm of the name that mkdir has just made leaves the map as it was before if and only if no earlier entry without extension has a name that begins so |
| WorkingPath.ReversalFits | src/helper/pwd.c:105-114 | The reversed path is never longer than the path that the walk wrote |
| WorkingPath.PrintsThePath | src/helper/pwd.c:65-116 | cwd prints the components from the root down, each after a slash |
| WorkingPath.PrintsBelowParent | src/helper/pwd.c:65-116 | The printed path is empty at the root and otherwise that of the parent, a slash and the directory's own name |
| WorkingPath.PrintedPathReturns | src/helper/pwd.c:65-116 | The printed path, split and given to cd, leads back if and only if each directory on it is found by its printed name |
| Shell.Terminal.Cd | src/helper/cd.c:6-97 | Moves current directory and cached name together, as Sessions.ChangeDirectory says, and leaves the file system alone |
| Shell.Terminal.Mkdir | src/helper/mkdir.c:5-36 | Writes a directory here with the cached name as its parent's |
| Shell.Terminal.Rm | src/helper/rm.c:4-109 | Asks the driver for the deletion that the line means, or for nothing |
| Shell.Terminal.Cwd | src/helper/pwd.c:23-117 | Terminates after exactly depth steps; prints a tilde at the root and the reversed trail elsewhere |
| Search.FoundBySlots | src/helper/find.c:180-240 | What is found below a directory is what its own name, its files and its subdirectories find |
| Search.DeeperShrinks | src/helper/find.c:193-207 | Descending into a subdirectory leaves fewer directories that are deeper |
| Search.QueryMeans | src/helper/find.c:4-104 | The query is the line's first and second part, if they are not too long; the extension's bytes are those of the line, or three zeros where there is at most one part |
| Search.FoundInMap | src/helper/find.c:140-245 | find finds something if and only if the query begins with "root" or it finds a key of the map of files in a directory that is reached through names: a file by any beginning of its name, with its extension, a directory by any name that its own is a prefix of |
| Search.Finder.Dfs | src/helper/find.c:140-245 | Terminates, never reports an error, finds something exactly when a reachable directory's name is a prefix of the query or a reachable file's name starts with it and the extension is equal, and reports a file in the directory that holds it; a directory whose own name matches is the reported one if and only if the search does not go on in a subdirectory |
| Search.Finder.Find | src/helper/find.c:4-137 | The search from the root, for the query that the line means, and where it reports its find; a line with parts that are too long is refused |
| Tokenizer.SpansAreMaximalRuns | src/stdlib/string.c:89-106 | The tokens of a string are exactly its maximal delimiter-free runs |
| Tokenizer.SpansAscend | src/stdlib/string.c:89-106 | The tokens come in ascending order, with a delimiter between any two |
| Tokenizer.RepeatedCalls | src/stdlib/string.c:75-118 | The n-th call on one buffer returns the n-th token, then nothing, and each token handed out stays readable although every call writes a zero |
| Tokenizer.CallsText | src/stdlib/string.c:107-115 | Repeated calls write a zero behind each token handed out and change no other byte |
| Tokenizer.RowReads | src/stdlib/string.c:134-141 | A command row reads as its token cut to 127 bytes |
| Tokenizer.RowExact | src/stdlib/string.c:134-141 | Byte by byte, a command row is the line from its token on, 127 bytes of it, with a zero behind the token and one at the row's end |
| StringLibrary.StrchrCustom | src/stdlib/string.c:65-73 | The first position of the character, or none exactly when the string does not hold it |
| StringLibrary.Library.Strtok | src/stdlib/string.c:75-118 | One step of the scan: returned position, buffer with the zero written, and new static position |
| StringLibrary.Library.Strparse | src/stdlib/string.c:120-144 | Keeps the first 12 tokens, each cut to 127 bytes, clears the other rows, and leaves the buffer as one call more does |
| StringLibrary.Library.ReversePath | src/helper/pwd.c:236-260 | The output buffer holds the components last one first, each after one slash |
| StringLibrary.ReversedPath | src/helper/pwd.c:236-260 | The components of the result are those of the path, reversed |
| StringLibrary.ReversedPathTwice | src/helper/pwd.c:236-260 | Reversing twice gives the list of components back |
| Scheduler.Scheduler.SaveContextToCurrent | src/scheduler.c:25-29 | Stores the context with the current process, if there is one |
| Scheduler.Scheduler.SwitchToNextProcess | src/scheduler.c:34-58 | Chooses the first ready process after the last one, cyclically, or halts |
| Scheduler.Scheduler.IsrHandler | src/scheduler.c:93-107 | One tick: the preempted process is made ready with its context, then the next one is chosen |
| Scheduler.TickExact | src/scheduler.c:34-107 | A tick in terms of the list before it: who is chosen, that the interrupted process is made ready with its context, that everybody else stays as they were, and when the processor halts |
| Scheduler.TickRunsOne | src/scheduler.c:34-58 | After a tick exactly the chosen process runs, and it was ready or the current one |
| Scheduler.OneRunsThroughout | src/scheduler.c:93-107 | At most the current process runs, throughout any run |
| Scheduler.TickNeverHalts | src/scheduler.c:45-52 | A tick with a current or a ready process never halts, and the ready process is chosen or comes nearer |
| Scheduler.Fair | src/scheduler.c:38-44 | A process that stays ready until it is chosen is chosen within as many ticks as there are candidates up to it, whatever the others do |
| Scheduler.FairWithinSixteenTicks | src/scheduler.c:38-44 | A process that stays ready is chosen within sixteen ticks from any state |
| Scheduler.ResumedAsPreempted | src/scheduler.c:93-107 | A process resumes with the context it was last preempted with |
| Paging.PageManager.constructor | src/paging.c:38-44 | Frame 0 is used and 31 are free |
| Paging.PageManager.AllocateCheck | src/paging.c:65-71 | True exactly when that many bytes are free; the 32-bit product does not overflow |
| Paging.PageManager.UpdateDirectoryEntry | src/paging.c:46-56 | Changes flags and frame number of the one entry that the address selects |
| Paging.PageManager.AllocateUserPageFrame | src/paging.c:74-113 | Does what Paging.Allocate says, keeps the count equal to the number of unused frames, and never indexes past the map |
| Paging.AllocateSucceedsWhenFree | src/paging.c:86-112 | Allocation succeeds exactly when a frame is unused, and maps the page to the lowest one: the entry that the address's top ten bits select becomes present, writable, open to user code and a page of 4 megabytes, and no other changes |
| Paging.FrameSurvives | src/paging.c:54-54 | No frame number below 1024 overflows the address or is cut by the ten-bit field |
| Paging.DistinctFrames | src/paging.c:74-113 | Over any run of allocations all user pages have distinct frames other than 0, and the free count falls to zero one by one |

## Left out

- The allocation scans run to 0x800 entries in the source (src/fat32.c:7) although the table has 512; the model's scans end with the table.
- `read` has a constant loop condition (src/fat32.c:304); the model's loop ends after the last slot, where the source returns "not found".
- CString.Strlen: stops at the end of a buffer without a zero, where the source runs on into what follows; for names of eight bytes in requests that is the parent-name field, which is zeroed in all requests for reading and deletion.
- WorkingPath.PrintsThePath: takes eight bytes of a name of eight bytes, where the walk takes `strlen` of a local array of eight bytes (src/helper/pwd.c:36, 67) and runs on into what follows it.
- WorkingPath.PrintedPathReturns: the same, for the printed path.
- `strtok` and the other string routines are modelled with buffer positions in place of pointers.
- Runs.CallKeepsInvariant: assumes of a caller that the parent cluster is a live directory, the buffer holds the clusters that are copied, a deletion takes an entry in use, and a read does not follow a cluster number that heads no chain.
- Answers.CallSimulates: leaves open what a read by the all-zero key answers, which unused entries match.
- CleanClusters.MkdirExact: on a disk where crashes have leaked clusters it gives one direction and what happens to the leaks, but does not list which inherited entries can be taken over.
- Shell.Terminal.Rm: asks that the deletion be one that ends; a line without parts deletes by the empty name and can follow whatever cluster number an unused entry holds.
- Shell.Terminal.Cwd: the walk writes into a 256-byte buffer without a check; the contract asks for a path that fits, and takes eight bytes of a name of eight bytes.
- StringLibrary.Library.Strparse: copies 127 bytes from each token whatever its length, so the contract asks for that many bytes behind the string.
- Safety.FileCrash: one cluster write is atomic in the crash model; a torn cluster is not modelled.
- Search.Finder.Dfs: states whether something is found and in which directory it is reported, not which of several matches comes first.
- Scheduler.Scheduler.IsrHandler: the saved registers are an input of the tick, since the source reads them by inline assembly and leaves the page directory unset.
- `cp` gives a second entry to the same cluster (src/helper/cp.c:136-156), so exact ownership is not meant to hold after it.
- `mv`, `delete_something2` and `delete_folder_source` remove the source even when the copy failed.
- `read_file` repeats `read` with matching by prefix; `ls` and `cat` only display.
- `paging_free_user_page_frame` clears the entry before it reads the frame number from it (src/paging.c:129-130), and page directories are handed out as addresses of locals, so only allocations are modelled.
- The writes through uninitialised pointers at src/helper/pwd.c:230-234.
- Process creation, the ATA driver, interrupts, segment tables, keyboard, screen and clock.
