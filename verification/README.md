# A verified model of the IR0 kernel's storage stack

IR0 is a kernel written in C. This project models the parts of it where data can be lost or mixed up without anyone noticing, and proves what those parts keep: the MINIX file engine, the FAT16 engine, tmpfs, the VFS lock, the mount tables, advisory locks, the path jail, and the stack image a new program starts with.

Run `dafny verify dfyconfig.toml` to check everything.

## How the model is laid out

| modules | what they model |
|---|---|
| `MinixBlocks`, `MinixZmap`, `MinixTree`, `MinixData`, `MinixAlloc`, `MinixSpec`, `MinixSpace`, `MinixVolume`, `MinixRuns` | zone bitmap and search hint, the direct / indirect / double-indirect zone tree, positioned read, write and truncate |
| `MinixDirs`, `MinixLinks`, `MinixNameRuns`, `MinixWrap` | directory blocks, link counts, create, link, remove and rename, on the same volume; a volume whose count wraps |
| `FatChain`, `FatBytes`, `FatVolume`, `FatTidy` | the mirrored FAT, cluster chains, file I/O over chains, and what lies behind a file's end |
| `FatNames`, `FatDirs` | 8.3 names and directory slots |
| `FatTree`, `FatFs`, `FatRuns` | directories and volume together: every operation by name, and runs of them |
| `TmpfsTree`, `TmpfsSpec`, `TmpfsNames`, `TmpfsVolume`, `TmpfsRuns` | the slot array with its parent, child and sibling links; paths; file data |
| `VfsLock`, `VfsPrograms` | the recursive lock around filesystem operations, and the calls of any number of tasks as programs over it, in all interleavings |
| `MountRouting` | the VFS mount table and the one simplefs keeps beside it |
| `Flock` | the lock table and the life of open-file descriptions |
| `PathNames`, `PathJail`, `PathResolve` | path components, `normalize_path` and what it resolves to, and the three root functions |
| `ExecMemory`, `ExecStack` | the process stack image and a reader for it |
| `Bytes`, `Outcomes` | bytes, error codes, options |

Objects the kernel updates in place are classes; their `seq` fields stand for the kernel's fixed tables, and keep their lengths. Ghost fields hold what the C code leaves implicit: which slot of which file a zone belongs to (`MinixVolume.Volume.owner`), which place in which chain a cluster has (`FatVolume.Volume.owner`), the child lists and ancestors of a tmpfs slot. Because these are maps, two owners for one zone cannot even be written down; the proofs show that the code never needs two.

The main results, one per component:

- **MINIX files are byte sequences.** On a volume without holes any run of `pwrite`, `truncate` and `pread`, at any offsets and through all three levels of the tree, failures included, has the bytes the plain sequence operations give at every moment and returns the slices they give, a write that runs out of room having overwritten precisely the old bytes in its way; on one with holes so has every run whose steps are clean, and a successful step is the plain operation if and only if it is clean. Whether a step is clean, and what it answers, ENOSPC included, is told by the state before it: the zones a growing file gets are the lowest free ones, in order (`MinixRuns.Run`, `MinixRuns.RunRefines`, `MinixVolume.Volume.PwriteAt`). A run without failures leaves each file with exactly the zones its size calls for, and no zone is lost or invented.
- **MINIX names are a map to inodes.** On real directory blocks every run of create, link, remove, rename, write and truncate, failures included, acts as on a map from names to files that live as long as some name names them, with every answer told by the state before: a rename moves the name unless it is refused for a reason the directories and the room left show (`MinixLinks.RenameAnswer`). The counts say how many names there are, inode and zones go exactly with the last one, and unless a write failed every file occupies precisely the zones it needs (`MinixNameRuns.Run`, `MinixLinks.Rm`, `MinixLinks.LastName`).
- **FAT16 is a tree of names and files.** Every run of create, mkdir, read, write, truncate, unlink, rmdir, link and rename by name, on every volume, failures and cuts of every kind included, answers and ends as the reference tree does. The answers are functions of the state before: an operation that needs clusters is refused if and only if it needs more than are free, counted (`FatVolume.Volume.EnsureSize`, `FatRuns.Answer`). Reading by name gives what was written by name, and a name that is not touched keeps its file byte for byte (`FatRuns.Run`, `FatRuns.RunRefines`, `FatRuns.UntouchedKept`). A file of the reference is its bytes and what lies behind them; where that is zeros, and cuts are clean, files are plain byte sequences that grow by zeros (`FatRuns.TidyRun`). Below that, the copies of the table stay equal and the chains acyclic and disjoint, and freeing a chain ends even on a cyclic table (`FatVolume.Volume.FreeChain`).
- **tmpfs is a map from paths to entries** with room for 128 of them, answer by answer (`TmpfsRuns.Run`).
- **The VFS lock.** Whatever any number of tasks call, nested as they like, at most one is inside, nobody deadlocks, and `vfs_read_file` returns the file of one single moment (`VfsPrograms.OneInside`, `VfsPrograms.NoDeadlock`, `VfsPrograms.ReadFileReturnsOneState`).
- **Mounts.** Over every run of mounts and umounts the two tables agree, every answer is the one a list of mounts and a set of (type, device) pairs gives, and two simplefs mounts share a store if and only if they have the same type and device (`MountRouting.Run`, `MountRouting.ValidShares`). Which mount a path goes to: `MountRouting.Vfs.Route`.
- **flock.** Over every run locks are granted exactly when nobody stands in the way and there is a record left, and go with the last close (`Flock.Run`, `Flock.GrantedIff`, `Flock.LastCloseReleases`).
- **Paths.** The result of `normalize_path`, and whether it refuses, in terms of components alone, for every absolute path (`PathResolve.NormIsGone`), and exactly when that is what ".." means (`PathResolve.ResolvesIff`). What the root functions accept, produce and show: `PathJail.ApplyRootIs`, `PathJail.UnderIffPrefix`, `PathJail.JailHolds`, `PathJail.VisibleIs`.
- **The first stack.** A reader written from the psABI finds the arguments, the environment, and under each AT_ kind the value that belongs there (`ExecStack.Task.SetupStack`).

## Where the code does less than one would expect

The model follows the code. Each of these has its exact condition, proved both ways.

- A MINIX link count is one byte. `minix_fs_link` is right exactly when there were fewer than 255 links (`MinixLinks.Link`). A file with 255 names can be built, and one more link and one removal then free its inode under all 255 (`MinixWrap.WrapLosesFile`). A rename links first, so it loses a file exactly when the file has 255 names and the target is not one of them (`MinixLinks.Rename`, `Wraps`).
- `vfs_rename` unlinks an existing target before it links. With one and the same name as source and target it answers ENOENT, the name is gone, and so is a file that had no other name, on MINIX (`MinixLinks.Rename`, `RenamedAway`) and on FAT16, where a name and its other case are one (`FatFs.Fs.Rename`, `RenameOutcome`).
- A MINIX write into a hole is the plain write if and only if the zones the hole is going to get are zero around the written bytes (`MinixVolume.Volume.PwriteAt`, `CleanBefore`); otherwise it shows the zone's previous bytes (`MinixSpec.HoleShowsOldBlock`). Only the first and the last block of a write can be concerned, so it is always the plain write if those have zones (`MinixSpec.EdgesBacked`). The engine itself makes no holes.
- Cutting a FAT16 file and growing it again shows zeros if and only if the file held zeros from the cut to the end of the last cluster it kept (`FatTidy.CutThenGrowIff`, `FatTidy.CutThenGrow`). From a tree whose files are followed by zeros every operation but such a cut leads to one again (`FatRuns.TidyStep`).
- `fat16_disk_link` looks the new name up again before it copies. A name that is not found again leaves an empty entry behind and ENOENT (`FatVolume.Volume.Link`).
- An 8.3 name of 8 and 3 characters does not fit the 12-byte buffer it is formatted into, which is then read uninitialised (`FatNames.FullNameIsUnreadable`). A shorter name finds itself again exactly when it has no space, something behind its first dot, and does not start with 0xE5 (`FatNames.FindsItselfIffPlain`). A name that fails this can also take over another's (`FatDirs.SpaceCollides`). Only the first dot counts: `a.b.` is fine, `a.` is not.
- `ir0_path_under_root` accepts what `ir0_path_apply_root` produced if and only if the normalised root has no stray slash and is not "/", or the result is "/" (`PathJail.JailHolds`, for every absolute root). "//" normalises to "/" (`PathJail.DoubleSlashRoot`), and "/a/b/.." to "/a/" (`PathJail.DotDotRoot`); there getcwd shows an empty string for the root directory (`PathJail.DotDotCwd`).
- In `normalize_path` a ".." leaves the slashes in front of the component it removes, and where two stand at the end the next ".." removes only one of them. The result has the components that resolving on a stack of names gives if and only if no ".." is lost so (`PathResolve.ResolvesIff`, `NoneSwallowed`; `PathResolve.UpComps` for one step); it always does if no name follows a ".." (`PathResolve.NormResolves`). "/a/b/../c/../.." gives "/a/" (`PathResolve.Swallowed`).
- `vfs_rename` on MINIX unlinks an existing target first. The rename can still fail for want of room, and the target is then lost: exactly when the directory has a gap among its zones, every place in front of the gap is taken, the target's place was behind it, no zone is free, and removing the target frees none (`MinixLinks.Rename`, `StillNoRoom`, `MinixLinks.RoomOnceGone`).
- A simplefs mount refused because all 32 slots are taken has already got its store, and keeps it: with nobody mounted on it, it can only be found again by mounting the same device (`MountRouting.Vfs.MountFs`, `GetsStore`).
- For a path the VFS routes to a simplefs mount, simplefs finds that mount if and only if it is not "/", or the path is "/" or starts with two slashes; otherwise it finds none (`MountRouting.Vfs.Route`, `MountRouting.BackendAgrees`).
- `vfs_mount` followed by `vfs_umount` fails for "/" and when another mount lies below (`MountRouting.Vfs.MountThenUmount`).
- On a stack smaller than the 256-byte margin the size test of `elf_setup_stack` wraps around and passes, and the image starts below the stack; on any other it lies inside (`ExecStack.Task.SetupStack`).

## Model

| member | source | states |
|---|---|---|
| `MinixZmap.ClearBitEffect` | fs/minix_fs.c:242-262 | marking a zone used turns exactly that zone's bit off, whatever byte it shares |
| `MinixZmap.SetBitEffect` | fs/minix_fs.c:299-319 | freeing a zone turns exactly that zone's bit on |
| `MinixBlocks.PtrOfSetPtr` | fs/minix_fs.c:1909-1920 | writing one 16-bit pointer of a block is read back there and leaves the other 511 alone |
| `MinixTree.StoreEffect` | fs/minix_fs.c:1909-1926 | storing a zone number changes the slot stored to and no other slot of the file, at every level |
| `MinixTree.AttachOwned` | fs/minix_fs.c:1861-2018 | hooking in an unowned zone keeps one owner per zone |
| `MinixTree.DetachOwned` | fs/minix_fs.c:2041-2161 | cutting a zone off keeps one owner per zone |
| `MinixTree.OtherFileKept` | fs/minix_fs.c:1852-2162 | a step for one file leaves another file's whole mapping and every block of it as they were |
| `MinixTree.HookEffect` | fs/minix_fs.c:1888-1926 | allocation fills one slot, keeps the file's data blocks and all other files |
| `MinixData.HookBared` | fs/minix_fs.c:1888-1926 | hooking in a zone bares at most its own block: every byte not under it is as before |
| `MinixData.BaredTrans` | fs/minix_fs.c:2384-2422 | so does a whole loop of allocations and writes, turn by turn |
| `MinixTree.CutEffect` | fs/minix_fs.c:2057-2094 | release empties one slot and keeps all other files |
| `MinixTree.NeededIffChild` | fs/minix_fs.c:2079-2093 | in an exact tree a metadata block is needed exactly while some entry of it is in use |
| `MinixTree.ExactGrows` | fs/minix_fs.c:1852-2020 | filling the way to the next block turns the tree for n blocks into the tree for n + 1 |
| `MinixTree.OwnersEnd` | fs/minix_fs.c:1777-1850 | the order in which `free_all_zones` visits slots meets every zone of the file once |
| `MinixSpec.WriteContents` | fs/minix_fs.c:2334-2434 | zero-filling the gap and copying through the tree is zero-pad then overlay on the byte sequence if and only if no new zone brought a stale byte into a former hole |
| `MinixSpec.LaidByte` | fs/minix_fs.c:1861-1877 | each byte after a write is the one written, the one that was there, or the one the new zone held |
| `MinixSpec.GrowContents` | fs/minix_fs.c:2181-2224 | filling up with zeros is zero-padding under the same exact condition |
| `MinixSpec.CleanIffNoStale` | fs/minix_fs.c:1861-1877 | whether a stale byte comes up is told before the write, by the free zones and the empty slots |
| `MinixSpec.EdgesBacked` | fs/minix_fs.c:2384-2422 | a write whose first and last blocks have zones, or are filled whole, or lie behind the end, is clean whatever holes the file has |
| `MinixSpec.ShrinkContents` | fs/minix_fs.c:2164-2179 | releasing the zones behind a size leaves the prefix of that size, holes or not |
| `MinixSpec.FailedWriteContents` | fs/minix_fs.c:2334-2434 | after a write that failed the file is sound; a byte that had a zone is the written one or as before, and one that had none is zero, the written one, or what its new zone held |
| `MinixSpec.HoleShowsOldBlock` | fs/minix_fs.c:1861-1877 | a partial write into a hole turns the zeros around it into what the new zone held before |
| `MinixSpace.SlotsForCount` | fs/minix_fs.c:1852-2020 | the slots a file of n blocks uses number n + [n>7] + (n>519 ? 1 + ceil((n-519)/512) : 0) |
| `MinixSpace.ExactSpace` | fs/minix_fs.c:1852-2162 | a file with an exact tree for n blocks holds exactly that many zones |
| `MinixAlloc.RestRest` | fs/minix_fs.c:264-297 | taking the lowest zones in two goes is taking them in one |
| `MinixAlloc.UsableRest` | fs/minix_fs.c:264-297 | each zone taken is one usable zone fewer |
| `MinixAlloc.TookOneMore` | fs/minix_fs.c:1888-1926 | filling one more slot on the way to a block takes the lowest free zone, and the data zone, which comes last, is the one with as many free zones below it as slots were missing |
| `MinixAlloc.TookBlock` | fs/minix_fs.c:1852-2020 | so the whole way to one block |
| `MinixAlloc.MissingSplit` | fs/minix_fs.c:2384-2422 | what a run of blocks lacks is what its first part lacks and what the rest lacks after that |
| `MinixAlloc.TookTrans` | fs/minix_fs.c:2384-2422 | a run of blocks and one that continues it get the zones that the whole gets: each told from the state before the first |
| `MinixAlloc.LacksIff` | fs/minix_fs.c:264-297 | the zones run out in the second part exactly if the whole lacks more than there are |
| `MinixAlloc.Stopped` | fs/minix_fs.c:2384-2422 | a write stopped for want of zones, or at the end of the tree, was bound to be |
| `MinixAlloc.StopIsUnique` | fs/minix_fs.c:2384-2422 | there is at most one position that a write has room up to and no room for |
| `MinixAlloc.StopIsUnbacked` | fs/minix_fs.c:2384-2422 | and it has no zone before the write |
| `MinixVolume.OtherKept` | fs/minix_fs.c:1852-2179 | a step for one file leaves every other file sound, exact, and with the same bytes and zones |
| `MinixVolume.TableKept` | fs/minix_fs.c:2334-2434 | so the file map changes at one file alone |
| `MinixVolume.SpaceKept` | fs/minix_fs.c:264-319 | if zones only move between the free set and one file, free and used zones together stay the same |
| `MinixVolume.Volume.constructor` | fs/minix_fs.c:1061-1100 | mounting a well-formed image, with or without holes, gives a sound volume with the hint at the first data zone |
| `MinixVolume.Volume.MarkZoneUsed` | fs/minix_fs.c:242-262 | exactly this zone leaves the free set and the hint moves past it |
| `MinixVolume.Volume.ScanFree` | fs/minix_fs.c:280-295 | the lowest free zone of a range, 0 only if there is none |
| `MinixVolume.Volume.AllocZone` | fs/minix_fs.c:264-297 | the hinted search returns the lowest free zone of all, and 0 only when no zone is free; no free zone ever lies below the hint |
| `MinixVolume.Volume.FreeZone` | fs/minix_fs.c:299-319 | exactly this zone becomes free, and the hint stays sound |
| `MinixVolume.Volume.AttachZone` | fs/minix_fs.c:1888-1926 | an empty slot gets the lowest free zone, or nothing changes and no zone is free |
| `MinixVolume.Volume.AttachOnWay` | fs/minix_fs.c:1888-1926 | as a step on the way to a block: only the way grows, and the data zone is the one foretold; it fails only if the way lacks more zones than there are |
| `MinixVolume.GrewTrans` | fs/minix_fs.c:1852-2020 | two such steps are one |
| `MinixVolume.Volume.ZoneAtDirect` | fs/minix_fs.c:1861-1878 | the zone of a direct block, allocated on demand; data and other files kept, nothing lost |
| `MinixVolume.Volume.ZoneAtIndirect` | fs/minix_fs.c:1880-1929 | the same below the indirect block |
| `MinixVolume.Volume.DoubleIndirectBlock` | fs/minix_fs.c:1947-1998 | the second-level block, allocated on demand |
| `MinixVolume.Volume.ZoneAtDouble` | fs/minix_fs.c:1931-2019 | the same below the double-indirect block |
| `MinixVolume.Volume.ZoneAt` | fs/minix_fs.c:1852-2020 | returns the zone the tree holds for the block, fills exactly the way to it with the zones foretold, and fails with EFBIG past the tree and ENOSPC only when the way lacks more zones than there are |
| `MinixVolume.Volume.StoreChunk` | fs/minix_fs.c:2404-2417 | exactly the chunk's bytes of the file change, no slot does, no other file does |
| `MinixVolume.Volume.PutChunk` | fs/minix_fs.c:2388-2422 | one turn of the write loop writes exactly its chunk, and no block but the chunk's gets a zone |
| `MinixVolume.Volume.PutBytes` | fs/minix_fs.c:2384-2422 | the loop writes exactly the buffer, or a prefix of it; only blocks of the written range get zones, those foretold; whether it succeeds, and where it stops, is told by the state before |
| `MinixVolume.Volume.ZeroRange` | fs/minix_fs.c:2181-2224 | exactly the range becomes zero, with the same promises |
| `MinixVolume.WrittenMore` | fs/minix_fs.c:2384-2422 | a write and one that continues it are one write |
| `MinixVolume.Volume.DetachZone` | fs/minix_fs.c:2057-2077 | one slot is emptied and its zone, and no other, becomes free |
| `MinixVolume.Volume.PruneIfEmpty` | fs/minix_fs.c:2079-2093 | a pointer block goes exactly when its last pointer went, and is free then |
| `MinixVolume.Volume.ReleaseDirect` | fs/minix_fs.c:2041-2050 | cuts exactly one file block |
| `MinixVolume.Volume.ReleaseIndirect` | fs/minix_fs.c:2052-2095 | the same, pruning the indirect block |
| `MinixVolume.Volume.ReleaseDouble` | fs/minix_fs.c:2097-2161 | the same, pruning both levels |
| `MinixVolume.Volume.ReleaseZoneAt` | fs/minix_fs.c:2036-2162 | cuts exactly one file block, keeps an exact tree exact, and returns what it cuts to the free set |
| `MinixVolume.Volume.TruncateZones` | fs/minix_fs.c:2164-2179 | cuts exactly the blocks behind the new size; the tree is exact for the new size if it was for the old; some zone becomes free exactly if some block was there |
| `MinixVolume.FreedMore` | fs/minix_fs.c:2164-2179 | a release and one that follows it are one: no zone is taken, and some is given if and only if some leaf was there |
| `MinixVolume.Volume.FreeSlot` | fs/minix_fs.c:1777-1796 | the zone in turn becomes free |
| `MinixVolume.Volume.FreePointerBlock` | fs/minix_fs.c:1777-1796 | every zone a pointer block names, and the block, become free |
| `MinixVolume.Volume.FreeDirectZones` | fs/minix_fs.c:1798-1810 | every direct zone becomes free |
| `MinixVolume.Volume.FreeDoubleIndirectTree` | fs/minix_fs.c:1821-1843 | every zone below the double-indirect block becomes free |
| `MinixVolume.Volume.FreeAllZones` | fs/minix_fs.c:1845-1850 | the free set grows by precisely the file's zones |
| `MinixVolume.Volume.PreadAt` | fs/minix_fs.c:2228-2332 | the requested slice of the file's bytes, all error cases, nothing changed |
| `MinixVolume.Volume.WriteThrough` | fs/minix_fs.c:2376-2422 | padding and copying write exactly the padded buffer, or a prefix of it, into the zones foretold; whether it succeeds, and where it stops, is told by the state before |
| `MinixVolume.Volume.PwriteAt` | fs/minix_fs.c:2334-2434 | the answer is a function of the state before; on success the file is the zero-padded overlay if and only if the zones its holes were to get are clean in the state before, and no other file changes; a write that lacks room has come exactly as far as the state before says, and in a file without holes has overwritten all old bytes in its way |
| `MinixVolume.Volume.PwriteFile` | fs/minix_fs.c:2376-2434 | the part of it that writes |
| `MinixVolume.WriteDone` | fs/minix_fs.c:2376-2434 | what a finished write makes of the whole volume |
| `MinixVolume.WriteFailed` | fs/minix_fs.c:2376-2434 | what is left of one that failed: the part of the buffer that got there, below the old size |
| `MinixVolume.SolidReached` | fs/minix_fs.c:2376-2434 | so in a file without holes a failed write has overwritten every old byte in its way |
| `MinixVolume.Volume.CutTo` | fs/minix_fs.c:3661-3671 | both ways of shrinking give the prefix and return the zones |
| `MinixVolume.Volume.GrowTo` | fs/minix_fs.c:3641-3659 | growing is zero-padding if and only if the zone the last block is to get is clean; whether it succeeds is told by the state before; on failure a file without holes is as it was |
| `MinixVolume.Volume.Truncate` | fs/minix_fs.c:3618-3686 | the answer is a function of the state before; the file is cut, or zero-padded if and only if the zone its last block is to get is clean; on failure no file changes |
| `MinixRuns.Step` | fs/minix_fs.c:2228-2434 | the answer is told by the state before, and so is whether the operation is the reference operation, failed writes included: a successful one is if and only if it is clean, and without holes all are; trees stay exact and zones are conserved |
| `MinixRuns.StepPwrite` | fs/minix_fs.c:2334-2434 | the same of a write |
| `MinixRuns.StepTrunc` | fs/minix_fs.c:3618-3686 | the same of a truncate |
| `MinixRuns.StepPread` | fs/minix_fs.c:2228-2332 | the same of a read |
| `MinixRuns.RunRefines` | fs/minix_fs.c:2228-2434 | over a run of clean steps the bytes of all files, and of every read, are the reference's at every moment |
| `MinixRuns.SolidRun` | fs/minix_fs.c:2228-2434 | without holes every step of every run is clean |
| `MinixRuns.RunConserves` | fs/minix_fs.c:1852-2434 | a run without failures keeps trees exact and loses no zone |
| `MinixRuns.Run` | fs/minix_fs.c:1852-2434 | any run, failures included, refines the reference file system for as long as its steps are clean, and always without holes; without failures space is exact and conserved |
| `MinixRuns.ExactOccupies` | fs/minix_fs.c:2029-2179 | in an exact volume every file holds exactly the zones its size calls for |
| `MinixDirs.PutEntryAt` | fs/minix_fs.c:786-795 | writing one 16-byte entry changes that entry of the block alone |
| `MinixDirs.TrimmedPadded` | fs/minix_fs.c:85-97 | a name padded with NULs reads back as itself, also at the full 14 bytes |
| `MinixDirs.EntryWritten` | fs/minix_fs.c:783-800 | rewriting an entry changes one place among all directories and no other file |
| `MinixDirs.ZoneAdded` | fs/minix_fs.c:818-847 | so does giving the directory a new block with one entry |
| `MinixDirs.FileStepKeepsEntries` | fs/minix_fs.c:2334-2434 | no step for a regular file touches any directory entry |
| `MinixLinks.EmptyRoot` | fs/minix_fs.c:1061-1100 | a volume with an empty root is sound and its counts are right |
| `MinixLinks.NameAdded` | fs/minix_fs.c:2842-2851 | after one more name the counts are right if and only if the count was set to the number of names |
| `MinixLinks.NameRemoved` | fs/minix_fs.c:2714-2744 | after one name fewer they are right if the count went down, or the inode went at the last name |
| `MinixLinks.ScanBlock` | fs/minix_fs.c:557-571 | the first live entry of the name in a block |
| `MinixLinks.FindDirEntry` | fs/minix_fs.c:532-576 | the inode some entry of the name names, or no entry of the directory has the name |
| `MinixLinks.ScanForSlot` | fs/minix_fs.c:774-784 | the first entry that is free or a duplicate |
| `MinixLinks.WriteEntry` | fs/minix_fs.c:786-805 | one entry set, everything else kept |
| `MinixLinks.GrowDir` | fs/minix_fs.c:818-847 | one entry set in a zone nobody owned, or no change and ENOSPC |
| `MinixLinks.AddDirEntry` | fs/minix_fs.c:742-854 | an empty place takes the name and the size covers it; every failure has its exact condition and changes nothing |
| `MinixLinks.BlockEmpty` | fs/minix_fs.c:918-927 | whether a block has no live entry |
| `MinixLinks.RemoveDirEntry` | fs/minix_fs.c:862-949 | an entry of the name, as far as 14 bytes show it, is cleared, or no entry has it |
| `MinixLinks.Link` | fs/minix_fs.c:2758-2872 | the answer is a function of the directories, the name and the room left; one more name for the same inode; no file and no zone changes; the counts stay right exactly when there were fewer than 255 links |
| `MinixLinks.LinkAdded` | fs/minix_fs.c:2849-2851 | the one-byte count is right after a link if and only if it was below 255 |
| `MinixLinks.AllocInode` | fs/minix_fs.c:375-395 | the lowest unused inode number, 0 if and only if all are used |
| `MinixLinks.Touch` | fs/minix_fs.c:2543-2653 | the answer is a function of the directories, the name and the room left; a new name gets an empty file of one link under the lowest unused number, an old name keeps its file, a failure changes nothing |
| `MinixLinks.FreeFile` | fs/minix_fs.c:2724-2739 | the file's zones, and no others, become free and the inode goes |
| `MinixLinks.Rm` | fs/minix_fs.c:2655-2756 | ENOENT exactly for an absent name, EISDIR exactly for a directory, otherwise it succeeds; one name goes; inode, bytes and precisely its zones go exactly when the count says it was the last; the directory keeps its zones, but for a last one that became empty; counts stay right |
| `MinixLinks.NamedIff` | fs/minix_fs.c:532-576 | what lookups of entries find is a map from names to inodes |
| `MinixLinks.NamesAdded` | fs/minix_fs.c:783-847 | writing an entry into an empty place adds exactly that name to the map |
| `MinixLinks.NamesRemoved` | fs/minix_fs.c:862-949 | clearing an entry removes exactly its name |
| `MinixLinks.LastName` | fs/minix_fs.c:2714-2744 | a count of 1 means that no other name names the file, and the other way round |
| `MinixLinks.MoveName` | fs/vfs.c:1440-1443 | link then unlink moves the name in the map of names and keeps inode, count and bytes, unless there were 255 links, when the inode is freed; a failure leaves the old name; exact trees stay exact and no zone is lost |
| `MinixLinks.ClearTarget` | fs/vfs.c:1414-1428 | the target name goes from the map of names, and with it a file that had no other, its zones included; whether the directory then has room for one entry is told by the state before; the source is untouched if it is another name |
| `MinixLinks.RoomOnceGone` | fs/minix_fs.c:742-854 | after a removal all places in front of the first gap are taken exactly if they were and the removed entry was behind the gap |
| `MinixLinks.ZonesGiven` | fs/minix_fs.c:2724-2739 | after a removal no zone is free exactly if none was, and it was not the last name of a file that has some |
| `MinixLinks.Rename` | fs/vfs.c:1367-1444 | the answer is a function of the state before, in every case: with different names and no target the one of the link, with a target success unless the directory cannot use the room it left; what each answer leaves, whole; with equal names the answer is ENOENT and the name is gone; the source survives exactly unless its count wraps; exact trees stay exact and no zone is lost |
| `MinixNameRuns.Step` | fs/minix_fs.c:2334-2872 | every admissible operation is the operation on names and files without counts, failures included, unless it fills a hole with a stale byte, which the state before shows; its answer is a function of the state before; a new file gets the lowest unused inode; the counts stay right, and but for failed writes no zone is lost |
| `MinixNameRuns.StepBytes` | fs/minix_fs.c:2334-2434 | the same of a write or truncate: no name changes |
| `MinixNameRuns.StepAdd` | fs/minix_fs.c:2543-2872 | the same of create and link, with exact answers |
| `MinixNameRuns.StepRemove` | fs/minix_fs.c:2655-2756 | the same of remove, with exact answers |
| `MinixNameRuns.StepMove` | fs/vfs.c:1367-1444 | the same of rename, with exact answers |
| `MinixNameRuns.RunRefines` | fs/minix_fs.c:2334-2872 | over a run names and bytes are the reference's at every moment |
| `MinixNameRuns.SolidRun` | fs/minix_fs.c:2334-2872 | without holes no step of any run fills one |
| `MinixNameRuns.RunConserves` | fs/minix_fs.c:2334-2872 | unless a write failed trees stay exact and no zone is lost, whatever is created, linked, removed and renamed |
| `MinixNameRuns.Run` | fs/minix_fs.c:2334-2872 | any run keeps the counts right, carries out exactly the admissible operations, answers each as the state before says, and without holes ends with the names and bytes of the reference; unless a write failed every file occupies precisely its zones |
| `MinixNameRuns.CheckAdmissible` | fs/minix_fs.c:532-576 | whether the count has room for a link and a rename target is no directory, decided by lookups |
| `MinixWrap.WrapLinks` | fs/minix_fs.c:2842-2851 | a directory with 255 names of one file has right counts |
| `MinixWrap.WrapLosesFile` | fs/minix_fs.c:2655-2872 | from there one link and one removal free the inode while all 255 names remain |
| `FatChain.WalkComplete` | fs/fat16_disk.c:541-555 | once the walk meets an entry again or ends, it has met everything reachable |
| `FatChain.ChainReaches` | fs/fat16_disk.c:541-555 | on an acyclic chain the reachable clusters are exactly the chain |
| `FatChain.LinksGiveWalk` | fs/fat16_disk.c:541-555 | if all links are in range the walk stays in range from every start |
| `FatBytes.RawResized` | fs/fat16_disk.c:940-1032 | keeping a common prefix and clearing new clusters is cut-or-zero-pad on the chain's bytes |
| `FatBytes.CopyOut` | fs/fat16_disk.c:885-938 | reading cluster by cluster gives the slice |
| `FatBytes.CopyIn` | fs/fat16_disk.c:1064-1094 | writing cluster by cluster gives the overlay |
| `FatVolume.EntriesKept` | fs/fat16_disk.c:940-1102 | a step inside one entry's chain keeps all other entries' chains and bytes |
| `FatVolume.OtherFileKept` | fs/fat16_disk.c:940-1102 | another entry's file is byte for byte the same |
| `FatVolume.EntryAdded` | fs/fat16_disk.c:1334-1420 | a new entry with fresh clusters takes nothing from the others |
| `FatVolume.EntryRemoved` | fs/fat16_disk.c:1422-1479 | a removed entry takes nothing from the others |
| `FatVolume.GrownThenCut` | fs/fat16_disk.c:985-1028 | growing and then cutting is one resize: common prefix kept in order, new clusters zero, the cut suffix free |
| `FatVolume.CeilUnique` | fs/fat16_disk.c:1005-1005 | the number of clusters the code keeps is the only one that holds the size without a spare cluster |
| `FatVolume.SizeFits` | fs/fat16_disk.c:1030-1030 | the cast of the size to 32 bits never changes it, on any geometry `fat16_load_bpb` accepts |
| `FatVolume.NeededClusters` | fs/fat16_disk.c:962-1000 | a chain can be grown to hold a size if and only if the ceiling of size by cluster bytes is at most the clusters it has and those free |
| `FatVolume.FreeAdded` | fs/fat16_disk.c:541-555 | freeing a chain adds its length to the number of free clusters |
| `FatVolume.EntryFits` | fs/fat16_disk.c:940-1032 | the size of a sound entry is below 2^32 |
| `FatVolume.Volume.constructor` | fs/fat16_disk.c:1134-1197 | a well-formed volume is sound when mounted |
| `FatVolume.Volume.SetFat` | fs/fat16_disk.c:487-511 | the same entry changes in every copy of the table, which stay equal |
| `FatVolume.Volume.FreeChain` | fs/fat16_disk.c:541-555 | ends on every table with links in range, cyclic ones included, and frees exactly what the links reach |
| `FatVolume.Volume.AllocCluster` | fs/fat16_disk.c:518-539 | the lowest free cluster, ENOSPC exactly when none is free |
| `FatVolume.Volume.FreshCluster` | fs/fat16_disk.c:962-974 | a cleared cluster nobody had |
| `FatVolume.Volume.ExtendChain` | fs/fat16_disk.c:985-1000 | zeroed clusters are appended, one no more than needed |
| `FatVolume.Volume.FreeTail` | fs/fat16_disk.c:1020-1021 | exactly the clusters from a given one on become free |
| `FatVolume.Volume.CutChain` | fs/fat16_disk.c:1002-1028 | the chain ends after the kept clusters and the rest is entirely free |
| `FatVolume.Volume.WalkToLast` | fs/fat16_disk.c:975-983 | the last cluster and the bytes the chain holds |
| `FatVolume.Volume.GrowChain` | fs/fat16_disk.c:962-1000 | a chain that holds the size and extends the old one |
| `FatVolume.Volume.FitChain` | fs/fat16_disk.c:962-1031 | a chain of exactly ceil(need / cluster bytes) clusters; ENOSPC if and only if it needs more new ones than are free |
| `FatVolume.Volume.DropChain` | fs/fat16_disk.c:948-960 | the whole chain is free |
| `FatVolume.Volume.ResizeChain` | fs/fat16_disk.c:940-1032 | a chain of exactly the clusters the size calls for, or all clusters are taken and the entry is as it was; the latter if and only if more new ones are needed than are free |
| `FatVolume.Volume.EnsureSize` | fs/fat16_disk.c:940-1032 | ENOSPC if and only if the size needs more clusters than the chain has and the table has free; else size and chain length are exact, the common prefix is kept, new clusters are zero, no other file changes; on ENOSPC no file changes |
| `FatVolume.Volume.ReadFile` | fs/fat16_disk.c:885-938 | the requested slice of the file's bytes |
| `FatVolume.Volume.PutCluster` | fs/fat16_disk.c:1066-1094 | exactly the overlapping bytes of one cluster change |
| `FatVolume.Volume.OverlayChain` | fs/fat16_disk.c:1059-1094 | the chain's bytes become the overlay; no other cluster changes |
| `FatVolume.Volume.OverlayFile` | fs/fat16_disk.c:1059-1101 | the file becomes the overlay |
| `FatVolume.Volume.WriteFile` | fs/fat16_disk.c:1034-1102 | ENOSPC if and only if the write ends behind the size and needs more clusters than the chain has and the table has free; else the resized file with the buffer laid over it; every error case |
| `FatVolume.Volume.Create` | fs/fat16_disk.c:1334-1368 | an empty file appears, or nothing changes |
| `FatVolume.Volume.Mkdir` | fs/fat16_disk.c:1370-1420 | a directory with one cluster of its own appears; ENOSPC exactly when no cluster is free, before anything else; a failure gives the cluster back |
| `FatVolume.Volume.GiveBack` | fs/fat16_disk.c:1398-1411 | a cluster taken for nothing is free again and the table as before |
| `FatVolume.Volume.RemoveEntry` | fs/fat16_disk.c:1438-1448 | exactly the entry's clusters become free, and are counted as free |
| `FatVolume.Volume.Unlink` | fs/fat16_disk.c:1422-1448 | the file and its clusters go, nothing else; the clusters are free to take |
| `FatVolume.Volume.Link` | fs/fat16_disk.c:1481-1561 | the new entry gets a copy of the bytes in clusters of its own, ENOSPC if and only if they need more than are free; it stays empty then, and when the new name is not found again |
| `FatVolume.Volume.Rmdir` | fs/fat16_disk.c:1450-1479 | an empty directory goes, no file changes |
| `FatVolume.Volume.Rename` | fs/vfs.c:1433-1443 | link-copy and unlink give the new name the old contents, as the chains are disjoint, exactly if the copy finds its clusters; a failed copy keeps the old |
| `FatTidy.WriteThenRead` | fs/fat16_disk.c:1034-1102 | what was written is read back, gaps are zero, all other bytes are unchanged |
| `FatTidy.ContentResized` | fs/fat16_disk.c:940-1032 | cutting or zero-filling the clusters is the resize of the file: its bytes and what lies behind them |
| `FatTidy.ContentWritten` | fs/fat16_disk.c:1034-1102 | so is a write |
| `FatTidy.ContentGrown` | fs/fat16_disk.c:985-1000 | clusters of zeros left behind by a failed growth change no file |
| `FatTidy.WrittenAnywhere` | fs/fat16_disk.c:1034-1102 | on any file what was written is read back, and each other byte is the one that lay there, or zero |
| `FatTidy.ResizeTidy` | fs/fat16_disk.c:940-1032 | a file followed by zeros is cut or zero-padded, and zeros follow it again if and only if the bytes between the cut and the end of its last cluster were zeros |
| `FatTidy.CutThenGrowIff` | fs/fat16_disk.c:940-1032 | cutting any file and growing it again shows zeros if and only if its clusters held zeros from the cut to the end of those kept |
| `FatTidy.WriteTidy` | fs/fat16_disk.c:1034-1102 | on a file followed by zeros a write is zero-pad and overlay, and zeros follow it again |
| `FatTidy.Resize` | fs/fat16_disk.c:940-1032 | on any volume the file is resized and no other changes; ENOSPC if and only if it needs more clusters than it has and are free, and then none changes |
| `FatTidy.Write` | fs/fat16_disk.c:1034-1102 | on any volume the file is written to and no other changes; on failure none does; every error case has its exact condition, ENOSPC that of the clusters it needs |
| `FatTidy.CutThenGrow` | fs/fat16_disk.c:940-1032 | the two calls on the volume, for a file followed by zeros: zeros if and only if the user's own bytes behind the cut, in its last cluster, were zeros |
| `FatNames.EncodeThenMatch` | fs/fat16_disk.c:337-460 | for plain names of at most 11 characters encode-then-match is case-insensitive equality |
| `FatNames.FindsItselfIffPlain` | fs/fat16_disk.c:337-460 | a stored name of at most 11 characters matches itself if and only if it is plain |
| `FatNames.FullNameIsUnreadable` | fs/fat16_disk.c:362-368 | a name of 8 and 3 characters matches only if the uninitialised buffer happens to hold it |
| `FatNames.FormatEncoded` | fs/fat16_disk.c:337-377 | what formatting makes of any encoded name |
| `FatNames.EncodableIff` | fs/fat16_disk.c:416-460 | a name can be stored exactly if it has one to eight characters before the first dot and at most three behind it |
| `FatNames.KeyIffSameLetters` | fs/fat16_disk.c:379-414 | a lookup takes two names for one exactly if their first 11 characters differ in the case of letters only |
| `FatDirs.Directory.constructor` | fs/fat16_disk.c:604-647 | a well-formed directory as loaded |
| `FatDirs.FindIn` | fs/fat16_disk.c:694-725 | finds precisely the one live slot that has the name |
| `FatDirs.FirstFree` | fs/fat16_disk.c:727-756 | the first slot deleted or never used |
| `FatDirs.RoomIffHoles` | fs/fat16_disk.c:727-756 | there is no slot exactly when the count of free slots is zero |
| `FatDirs.HolesWritten` | fs/fat16_disk.c:1334-1448 | storing a name takes one free slot and deleting one gives one |
| `FatDirs.Directory.Create` | fs/fat16_disk.c:1334-1368 | EEXIST, ENOSPC or EINVAL exactly when the name is there, no slot is free, or it cannot be stored; a plain name is indexed afterwards and nothing else changes; names stay distinct exactly when the stored form is new; the new slot is found exactly when the name is plain |
| `FatDirs.Directory.Remove` | fs/fat16_disk.c:1422-1448 | exactly this name is gone, and live slots still precede the first unused one |
| `FatDirs.Added` | fs/fat16_disk.c:1352-1367 | the directory stays well-formed if and only if the stored form takes no name in use |
| `FatDirs.SpaceCollides` | fs/fat16_disk.c:416-460 | "A " is stored under the name of "A" |
| `FatDirs.Step` | fs/fat16_disk.c:1334-1448 | one create or delete answers and acts as on a set of names and a number of free slots |
| `FatDirs.Run` | fs/fat16_disk.c:1334-1448 | over any run answers, names and free slots are the reference's: a name is there exactly when it was created and not deleted since |
| `FatTree.FileChanged` | fs/fat16_disk.c:1578-1620 | new bytes for one entry change one name of the tree |
| `FatTree.FilePut` | fs/fat16_disk.c:1334-1368 | a slot and an entry written together add one file to the tree |
| `FatTree.DirPut` | fs/fat16_disk.c:1370-1420 | a slot, an entry and a directory of dots add one empty directory |
| `FatTree.FileDropped` | fs/fat16_disk.c:1422-1448 | a slot deleted and its entry removed take one file away |
| `FatTree.DirDropped` | fs/fat16_disk.c:1450-1479 | so for an empty directory, with the table of its slots |
| `FatFs.StoredSlot` | fs/fat16_disk.c:416-460 | a name that can be found again is stored under its own key, and is never a dot name |
| `FatFs.NewSlotsOk` | fs/fat16_disk.c:1104-1132 | a new subdirectory is well-formed and holds its two dots alone |
| `FatFs.EmptyRoot` | fs/fat16_disk.c:1134-1197 | an empty root directory is an empty tree |
| `FatFs.Fs.constructor` | fs/fat16_disk.c:1134-1197 | a volume and its directories as mounted |
| `FatFs.Fs.Locate` | fs/fat16_disk.c:694-725 | the entry a name stands for in the tree, ENOENT and EISDIR exactly when there is no name, or no file |
| `FatFs.Fs.Read` | fs/fat16_disk.c:1310-1332 | the slice of the bytes the tree has under the name; every error case |
| `FatFs.Fs.Write` | fs/fat16_disk.c:1578-1600 | on any volume the tree changes at this name alone, to the written file, exactly if the clusters it needs are free; on failure not at all; the answer is exact |
| `FatFs.Fs.Truncate` | fs/fat16_disk.c:1602-1620 | on any volume the tree changes at this name alone, to the resized file, exactly if the clusters it needs are free; on failure not at all; the answer is exact |
| `FatFs.Fs.Room` | fs/fat16_disk.c:1334-1357 | EEXIST, ENOSPC or EINVAL exactly when the name is there, no slot is free, or it cannot be stored |
| `FatFs.Fs.Create` | fs/fat16_disk.c:1334-1368 | an empty file under a new name; the answer is exact |
| `FatFs.Fs.Unlink` | fs/fat16_disk.c:1422-1448 | exactly this name goes; the answer is exact |
| `FatFs.Fs.FillDir` | fs/fat16_disk.c:1383-1420 | a new directory under a new name, empty, in a cluster of its own; the answer is exact |
| `FatFs.Fs.Mkdir` | fs/fat16_disk.c:1370-1420 | an empty directory under a new name, or nothing changes; EEXIST exactly when the name is there, ENOSPC exactly when no cluster or no slot is free, EINVAL exactly when the name cannot be stored |
| `FatFs.Fs.IsEmptyDir` | fs/fat16_disk.c:758-787 | the scan says empty exactly when the tree has no name in the directory |
| `FatFs.Fs.Rmdir` | fs/fat16_disk.c:1450-1479 | exactly this name goes; ENOENT, ENOTDIR and ENOTEMPTY exactly when the tree says so |
| `FatFs.Fs.DropDir` | fs/fat16_disk.c:1466-1479 | an empty directory, its slot and its cluster go together |
| `FatFs.Fs.FillCopy` | fs/fat16_disk.c:1518-1561 | the copy under its new name, found again before it is filled; the answer is exact |
| `FatFs.Fs.CopyEntry` | fs/fat16_disk.c:1525-1561 | the copy has the bytes and zeros behind them, or is empty if and only if they need more clusters than are free |
| `FatFs.CopyContent` | fs/fat16_disk.c:1525-1561 | what the clusters of a copy come to |
| `FatFs.Fs.Link` | fs/fat16_disk.c:1481-1561 | the new name gets the bytes of the old one, or stays empty if and only if they need more clusters than are free; every refusal leaves the tree; the answer is exact |
| `FatFs.Fs.MoveFile` | fs/vfs.c:1433-1443 | the bytes move to a new name, or the old one keeps them; the answer is exact |
| `FatFs.Fs.Rename` | fs/vfs.c:1367-1444 | the bytes move and a replaced file goes; under one and the same name the file is lost; the answer is exact, counting the clusters and the slot a replaced file leaves |
| `FatFs.RoomLeft` | fs/fat16_disk.c:727-756 | a deleted slot is a free one: after an unlink the directory has room |
| `FatFs.RoomCleared` | fs/vfs.c:1414-1432 | so what a rename finds room for is told before its target goes |
| `FatRuns.CheckOp` | fs/fat16_disk.c:1334-1615 | the operations the model speaks of, decided by lookups, both ways |
| `FatRuns.Step` | fs/fat16_disk.c:1334-1615 | every admissible operation, on every volume, failing ones included, answers and acts as the tree of names and files, the free slots and the number of free clusters say |
| `FatRuns.StepRead` | fs/fat16_disk.c:1310-1368 | the same of create and read |
| `FatRuns.StepWrite` | fs/fat16_disk.c:1578-1620 | the same of write and truncate |
| `FatRuns.StepName` | fs/fat16_disk.c:1370-1479 | the same of mkdir, unlink and rmdir |
| `FatRuns.StepCopy` | fs/fat16_disk.c:1481-1561 | the same of link and rename |
| `FatRuns.RunRefines` | fs/fat16_disk.c:1310-1620 | over any run names, directories and bytes, and the bytes of every read, are the reference's at every moment |
| `FatRuns.UntouchedKept` | fs/fat16_disk.c:1310-1620 | a name that no operation touches names the same file, byte for byte, after any run |
| `FatRuns.TidyStep` | fs/fat16_disk.c:1310-1620 | where zeros follow all files an operation is the plain one on byte sequences, and zeros follow them again if and only if it is no unclean cut |
| `FatRuns.TidyRun` | fs/fat16_disk.c:1310-1620 | so a run whose cuts are clean is a run on byte sequences that grow by zeros |
| `FatRuns.Run` | fs/fat16_disk.c:1334-1615 | any run, on any volume, carries out exactly the admissible operations, answers each as the state before says, and ends in the tree the reference gives: names, directories and all bytes; names that are not touched stay as they are |
| `TmpfsTree.OneTree` | fs/tmpfs.c:145-188 | every used slot is in the tree under the root |
| `TmpfsTree.SubtreeByChildren` | fs/tmpfs.c:177-184 | a subtree is its top and its children's subtrees |
| `TmpfsTree.UnlinkKeeps` | fs/tmpfs.c:158-175 | unlinking from the sibling list keeps the forest: parents, lists, distinct names, no cycles |
| `TmpfsTree.InsertKeeps` | fs/tmpfs.c:452-456 | inserting at the head of a list keeps it |
| `TmpfsTree.ClearKeeps` | fs/tmpfs.c:186-188 | clearing a detached childless slot keeps it |
| `TmpfsNames.FoundByName` | fs/tmpfs.c:224-238 | searching a child list by name finds what the path names, or there is no such path |
| `TmpfsNames.PrefixClosed` | fs/tmpfs.c:220-241 | below a missing path, and below a file, there is nothing |
| `TmpfsNames.FullIffNoSlot` | fs/tmpfs.c:126-143 | the tree has 128 paths exactly when no slot is free |
| `TmpfsSpec.SplitComps` | fs/tmpfs.c:411-430 | splitting at the last slash splits off the last component |
| `TmpfsVolume.Volume.constructor` | fs/tmpfs.c:252-290 | a fresh instance holds the root directory alone |
| `TmpfsVolume.Volume.BeforeInList` | fs/tmpfs.c:160-167 | the walk finds the slot in its parent's list and the one in front of it |
| `TmpfsVolume.Volume.UnlinkFromParent` | fs/tmpfs.c:158-175 | the slot leaves its parent's list and no other list changes |
| `TmpfsVolume.Volume.FreeInode` | fs/tmpfs.c:145-189 | ends, and frees exactly the subtree; every other slot keeps its inode and its list but for the freed slot |
| `TmpfsVolume.Volume.FreeChildren` | fs/tmpfs.c:177-185 | exactly the subtrees of the children are gone |
| `TmpfsVolume.Volume.FindChild` | fs/tmpfs.c:224-234 | the first child of the name |
| `TmpfsVolume.Volume.SkipSlashes` | fs/tmpfs.c:207-208 | skipping slashes loses no component |
| `TmpfsVolume.Volume.Lookup` | fs/tmpfs.c:191-250 | the one slot with this path, or NULL when the tree has no such path |
| `TmpfsVolume.Volume.AllocInode` | fs/tmpfs.c:126-143 | the first free slot, NULL only when none is free |
| `TmpfsVolume.Volume.AddChild` | fs/tmpfs.c:437-456 | the path map gains one entry, unless it is full |
| `TmpfsVolume.Volume.Make` | fs/tmpfs.c:392-530 | mkdir and create act and answer as on the path map, in every error case |
| `TmpfsVolume.Volume.FreeLeaf` | fs/tmpfs.c:724-725 | exactly one path goes |
| `TmpfsVolume.Volume.Unlink` | fs/tmpfs.c:700-726 | acts and answers as on the path map |
| `TmpfsVolume.Volume.Rmdir` | fs/tmpfs.c:728-758 | acts and answers as on the path map; ENOTEMPTY exactly when some path goes through it |
| `TmpfsVolume.Volume.Umount` | fs/tmpfs.c:292-327 | every slot is free afterwards |
| `TmpfsVolume.Volume.Write` | fs/tmpfs.c:561-617 | zero-pad and overlay, also when the buffer moves |
| `TmpfsVolume.Volume.Truncate` | fs/tmpfs.c:800-851 | cut or zero-pad, also when the old buffer is reused |
| `TmpfsVolume.Volume.Read` | fs/tmpfs.c:532-559 | the slice of the file's bytes |
| `TmpfsRuns.Step` | fs/tmpfs.c:392-851 | one operation on the slots is the operation on the path map |
| `TmpfsRuns.Run` | fs/tmpfs.c:252-851 | from mount on, every run gives the answers and the tree the path map gives |
| `TmpfsRuns.RunWellFormed` | fs/tmpfs.c:392-758 | after every run each path lies in a directory and there are at most 128 |
| `TmpfsRuns.MadeKinds` | fs/tmpfs.c:392-758 | mkdir makes a directory, which unlink refuses and names can be made in; create an empty file, which rmdir refuses and nothing can be made in |
| `TmpfsRuns.MakeThenRemove` | fs/tmpfs.c:392-758 | creating and removing again restores the tree |
| `TmpfsRuns.WriteThenRead` | fs/tmpfs.c:532-617 | what was written is read back; other bytes and files are as before, gaps are zero, and the length is exact |
| `TmpfsRuns.CutThenGrow` | fs/tmpfs.c:800-851 | cutting and growing again shows zeros, never the old bytes |
| `VfsLock.LockVars.AcquireTurn` | fs/vfs.c:88-118 | one turn of the loop enters, re-enters, or changes nothing |
| `VfsLock.LockVars.Release` | fs/vfs.c:120-134 | depth down by one, unlocked at the outermost |
| `VfsLock.InvStep` | fs/vfs.c:88-134 | each event keeps depth and owner equal to the outstanding acquires |
| `VfsLock.InvHolds` | fs/vfs.c:88-134 | so does every run of any number of tasks |
| `VfsLock.MutualExclusion` | fs/vfs.c:77-134 | at most one task is inside, depth is its outstanding acquires, it never waits for itself, others do |
| `VfsLock.ReleaseFrees` | fs/vfs.c:120-134 | the lock is free exactly after the outermost release |
| `VfsPrograms.StepRefines` | fs/vfs.c:136-303 | every step of a task's calls is a step of the lock, and keeps its rule: backends run and releases happen between a call's own acquire and release |
| `VfsPrograms.SoundAlways` | fs/vfs.c:88-303 | in every state of every run lock, call stacks and what readers know agree |
| `VfsPrograms.OneInside` | fs/vfs.c:77-303 | at most one task is inside any call, it never waits for itself, and only it touches a backend or releases |
| `VfsPrograms.ReadFileReturnsOneState` | fs/vfs.c:1767-1869 | size and bytes come from one single state, whatever writers do |
| `VfsPrograms.EntryIsEntry` | fs/vfs.c:1767-1869 | that state is the one the call got in at |
| `VfsPrograms.NoDeadlock` | fs/vfs.c:88-303 | while any call is under way some task can go on |
| `MountRouting.CoversByComponents` | fs/vfs.c:336-356 | a mount that covers a path is a prefix of it by whole components |
| `MountRouting.CoversIff` | fs/vfs.c:336-356 | between paths without stray slashes covering is being a prefix by components |
| `MountRouting.RouteIsUnique` | fs/vfs.c:336-356 | the longest covering mount is unique |
| `MountRouting.RouteByComponents` | fs/vfs.c:336-356 | so the route is the mount with the most components of the path, and there is none exactly if no mount is a prefix |
| `MountRouting.CoversAlike` | fs/simplefs.c:212-237 | where a mount covers a path for the VFS, it does for the backend exactly under that condition |
| `MountRouting.BackendAgrees` | fs/simplefs.c:212-237 | the backend's own search picks the mount the VFS picked if and only if the mount is not "/", or the path is "/" or starts with two slashes; otherwise it finds none |
| `MountRouting.RootMountIsMissed` | fs/simplefs.c:212-237 | so every "/x" with another character behind the slash is missed |
| `MountRouting.UsesUpdate` | fs/simplefs.c:350-430 | how changing one table slot changes a store's number of mounts |
| `MountRouting.StoresAreShared` | fs/simplefs.c:174-196 | two slots point at one store if and only if they have the same type and device |
| `MountRouting.FullIff` | fs/simplefs.c:174-196 | a table without duplicates is full exactly when it holds as many keys as it has places |
| `MountRouting.BackendRoom` | fs/simplefs.c:389-430 | what simplefs answers, told by the list of mounts and the set of pairs alone |
| `MountRouting.LastOfPair` | fs/simplefs.c:350-387 | the store goes exactly with the last mount of its type and device |
| `MountRouting.BelowIff` | fs/vfs.c:722-730 | a mount lies below another exactly if it has its components and more |
| `MountRouting.ValidShares` | fs/simplefs.c:350-430 | of any two simplefs mounts: one store if and only if same type and same device |
| `MountRouting.Step` | fs/vfs.c:598-746 | one mount or umount answers and acts as on a list of mounts and a set of pairs |
| `MountRouting.Run` | fs/vfs.c:598-746 | so does every run from empty tables, and mounts share stores exactly as they should |
| `MountRouting.Vfs.constructor` | fs/vfs.c:553-581 | empty tables are consistent |
| `MountRouting.Vfs.FindMount` | fs/vfs.c:336-356 | the unique longest covering mount, or none covers |
| `MountRouting.Vfs.SimpleFind` | fs/simplefs.c:212-237 | the longest covering mount of the backend's table, or none covers |
| `MountRouting.Vfs.Route` | fs/simplefs.c:212-237 | both searches on one path: they agree exactly under that condition |
| `MountRouting.Vfs.GetStore` | fs/simplefs.c:174-196 | the store of this type and device, and of no other; none exactly when no store has the pair and all 16 are used; reference counts stay equal to the number of mounts |
| `MountRouting.Vfs.SimpleMount` | fs/simplefs.c:389-430 | the exact answer from the state before: ENOMEM, EBUSY or ENOSPC exactly when there is no store to be had, the path is taken, or all 32 slots are used; on success one slot is taken and points at the store of this type and device |
| `MountRouting.Vfs.TakeSlot` | fs/simplefs.c:413-427 | one slot points at the store and its count goes up by one |
| `MountRouting.Vfs.LeaveSlot` | fs/simplefs.c:368-384 | one slot is freed, and the store with it exactly if no other slot points at it |
| `MountRouting.Vfs.SimpleUmount` | fs/simplefs.c:350-387 | one slot is freed, the last mount of a store releases it; EINVAL exactly when there is no such mount |
| `MountRouting.Vfs.MountFs` | fs/vfs.c:598-659 | the exact answer; the mount is added in front, both tables agree, and the stores are those of the pairs mounted, with the one a refused mount leaves behind |
| `MountRouting.Vfs.IsMounted` | fs/vfs.c:618-622 | whether the path is taken |
| `MountRouting.Vfs.AddSimple` | fs/vfs.c:634-659 | a simplefs mount: exact answer, both tables agree |
| `MountRouting.Vfs.AddOther` | fs/vfs.c:634-659 | a mount of another type: simplefs's tables stay as they are |
| `MountRouting.Vfs.DropMount` | fs/vfs.c:732-745 | exactly this mount goes, from both tables |
| `MountRouting.Vfs.UmountFs` | fs/vfs.c:689-746 | the exact answer; exactly this mount goes from both tables, and its store with the last mount of the pair |
| `MountRouting.Vfs.MountThenUmount` | fs/vfs.c:598-746 | mounting and unmounting restores the table, exactly unless it is "/" or a mount lies below |
| `Flock.Table.constructor` | fs/flock.c:23-40 | no locks |
| `Flock.Table.Find` | fs/flock.c:42-52 | the description's record, if it has one |
| `Flock.Table.Conflicts` | fs/flock.c:66-88 | true exactly when another description's lock on the path stands in the way |
| `Flock.Table.ReleaseFile` | fs/flock.c:144-158 | exactly this description's lock goes |
| `Flock.Table.Apply` | fs/flock.c:90-142 | the exact answer; the lock map gains, changes or loses this description's lock; a refused upgrade keeps the old one; ENOLCK for want of a record exactly when all 64 are taken by others |
| `Flock.Table.Open` | fs/vfs.c:925-935 | a new live description without locks |
| `Flock.Table.Dup` | fs/vfs.c:1068-1078 | one more reference, same locks |
| `Flock.Table.Close` | fs/vfs.c:1046-1066 | the last reference takes the lock with it |
| `Flock.Step` | fs/flock.c:42-158 | one call answers and acts as on the map from live descriptions to locks |
| `Flock.GrantedIff` | fs/flock.c:66-141 | a shared lock is granted exactly if no other description holds the path exclusively, an exclusive one exactly if no other holds it at all, and there is a record |
| `Flock.SharedTogether` | fs/flock.c:66-141 | any number of descriptions hold a path shared at once |
| `Flock.LastCloseReleases` | fs/vfs.c:1046-1078 | of all the closes of a description only the last gives its lock up |
| `Flock.DupThenClose` | fs/vfs.c:1046-1078 | a close undoes a dup |
| `Flock.CloseLetsIn` | fs/flock.c:144-158 | after that close whatever only this lock kept out is granted |
| `Flock.HadRoom` | fs/flock.c:127-137 | a lock that got a record had one to get |
| `Flock.Run` | fs/flock.c:42-158 | over every run the answers and the lock map are those of the reference; all holders of a path are shared or there is one, each description has at most one record, there are at most 64, and every record belongs to a live description |
| `Flock.PutLock` | fs/flock.c:128-141 | writing a record sets this description's lock alone |
| `Flock.RemoveLock` | fs/flock.c:144-158 | clearing a record removes this description's lock alone |
| `Flock.SafePut` | fs/flock.c:111-141 | a lock granted without conflict keeps the table safe |
| `PathJail.ScanComp` | fs/path.c:57-61 | the next component, as far as its buffer goes |
| `PathJail.ApplyComp` | fs/path.c:63-95 | what one component does to the buffer; `PathResolve.StepBuffer` says what that means |
| `PathJail.NormalizePath` | fs/path.c:17-109 | the loop computes the walk over the source, and refuses every path that is not absolute when the buffer is too small for "/"; `PathResolve.NormIsGone` says what that means |
| `PathJail.WalkIsFold` | fs/path.c:17-109 | cutting long components into pieces never changes a result that fits |
| `PathJail.FoldPlain` | fs/path.c:17-109 | without ".." normalising is splitting and joining again |
| `PathJail.FoldClean` | fs/path.c:63-96 | the result never holds a "." or ".." component, whatever the input |
| `PathJail.ApplyRootIs` | fs/path.c:203-228 | for every absolute root and path the result is the components of the normalised root followed by the user's; refused exactly if one of them, or both together, do not fit |
| `PathJail.RootIsTidy` | fs/path.c:17-109 | a root without ".." normalises without stray slashes |
| `PathJail.TidyShorter` | fs/path.c:17-109 | joining the components of a path never makes it longer, and equally long only if it had no stray slash |
| `PathJail.PrefixTidy` | fs/path.c:230-253 | a prefix of a tidy path up to a slash is tidy |
| `PathJail.JailHolds` | fs/path.c:203-253 | for every absolute root: `ir0_path_under_root` accepts the result if and only if it fits the check's buffer, the normalised root has no stray slash, and it is not "/", or the result is "/" |
| `PathJail.UnderIffPrefix` | fs/path.c:230-253 | what the check accepts has the root's components first, always; without stray slashes it accepts all of that, but for a root that normalises to "/" |
| `PathJail.VisibleIs` | fs/path.c:255-302 | without stray slashes getcwd shows the components behind the root's, and outside the root all of them |
| `PathJail.JailIsInvisible` | fs/path.c:203-302 | getcwd shows the user's path normalised twice, as far as its buffer goes, under the same exact condition |
| `PathJail.NormTwice` | fs/path.c:17-109 | normalising is idempotent on paths without ".." |
| `PathJail.NoJailIsTransparent` | fs/path.c:203-302 | with the trivial roots the result is the user's path tidied, refused exactly if it does not fit, always under the root and shown as it is |
| `PathJail.DoubleSlashRoot` | fs/path.c:230-302 | the root "//" breaks both promises |
| `PathJail.DotDotRoot` | fs/path.c:203-253 | the root "/a/b/.." is taken as "/a/", and the check refuses "/a/x" |
| `PathJail.DotDotCwd` | fs/path.c:255-302 | under that root getcwd shows an empty string for the root directory itself |
| `PathResolve.StepBuffer` | fs/path.c:63-95 | one component, on the names in the buffer and the slashes in front of each |
| `PathResolve.NormIsGone` | fs/path.c:17-109 | `normalize_path` of every absolute path: the exact result, and refusal exactly if the buffer is too small on the way |
| `PathResolve.RelativeIsGone` | fs/path.c:17-109 | the same of relative paths whose components fit theirs |
| `PathResolve.JoinIsGone` | fs/path.c:111-139 | `join_paths`: the components of the second path behind those of the first, or alone if it is absolute |
| `PathResolve.UpComps` | fs/path.c:70-79 | ".." takes the last component from every clean buffer, if and only if it does not end in two slashes; otherwise none |
| `PathResolve.EndsTwice` | fs/path.c:70-79 | the buffer ends in two slashes exactly if the names and slashes behind it say so |
| `PathResolve.WrittenComps` | fs/path.c:81-95 | the components of the buffer are the names written to it |
| `PathResolve.ResolvesIff` | fs/path.c:63-95 | the names are those that resolving on a stack gives if and only if no ".." met two slashes at the end |
| `PathResolve.NamesFirstFine` | fs/path.c:63-95 | which none does if no name follows a ".." |
| `PathResolve.NormResolves` | fs/path.c:17-109 | so for such paths the components of the result are the resolution of the path's |
| `PathResolve.Swallowed` | fs/path.c:17-109 | "/a/b/../c/../.." gives "/a/", though it resolves to the root |
| `PathNames.CompsCut` | fs/path.c:111-139 | a cut at a slash splits the components |
| `PathNames.CompsOfSlashed` | fs/path.c:17-109 | joining and splitting is the identity |
| `ExecStack.LayoutSound` | kernel/elf_loader.c:660-733 | regions follow one another, sp is 16-byte aligned, the end of the image is 16 to 31 bytes below the top; what passes the size test lies inside the stack if and only if the stack is no smaller than the margin |
| `ExecStack.ImageReadsBack` | kernel/elf_loader.c:735-915 | a reader written from section 3.4.1 of the System V AMD64 psABI recovers argc, strings, NULLs and auxiliary vector from memory laid out so |
| `ExecStack.ImageComplete` | kernel/elf_loader.c:735-915 | the writes, in the loader's order, lay the memory out so |
| `ExecStack.AuxVectorTells` | kernel/elf_loader.c:855-885 | looked up by kind the vector gives each value its own name, and no kind occurs twice |
| `ExecStack.AuxValAt` | kernel/elf_loader.c:855-885 | where each kind occurs once, the first entry of a kind is the entry of that kind |
| `ExecStack.ImageTold` | kernel/elf_loader.c:735-915 | so does the vector a reader finds in memory |
| `ExecStack.Task.PutStrings` | kernel/elf_loader.c:735-772 | the strings, each with its NUL, at the addresses returned |
| `ExecStack.Task.PutWords` | kernel/elf_loader.c:774-899 | little-endian words in order, nothing outside changed |
| `ExecStack.Task.PutTables` | kernel/elf_loader.c:774-899 | argc, argv, envp, auxiliary vector and random bytes in their regions |
| `ExecStack.Task.WriteImage` | kernel/elf_loader.c:735-915 | the image reads back and nothing outside the stack changed |
| `ExecStack.Task.SetupStack` | kernel/elf_loader.c:644-915 | for every argv and envp: ENOMEM exactly when the 64-bit size test says so, else the independent reader recovers the same arguments and environment from sp and, under each AT_ kind, the value that belongs there, each kind once, AT_RANDOM leading to the 16 random bytes; inside the stack exactly if it has the margin; the registers and the place of the image are exact |

## Left out

- Device errors and failing allocations of kernel memory: block reads and writes and `kmalloc` succeed; ENOSPC, EFBIG and the other refusals are modelled.
- Packing of inodes, the inode bitmap, FAT sectors and FAT directory slots into disk sectors: these are typed tables. MINIX pointer blocks and directory blocks are real bytes.
- Path resolution in MINIX and FAT16: operations take a directory and a name; tmpfs resolves whole paths.
- Crash consistency, write-back of the bitmaps, timestamps, owners, permissions and logging.
- MINIX `mkdir` and `rmdir`, and renaming onto a directory, which removes that tree first: they would repeat the entry lemmas.
- `minix_fs_format`: runs start from a well-formed mounted image.
- FAT16 geometry that `load_bpb` does not check (a table too small for its clusters, more than 0xFFF5 clusters) is excluded; the power-of-two check of the cluster size is modelled as its bound, 65536 bytes.
- FAT16 directories that already hold two equal names or a name of 8 and 3 characters are not well-formed, so runs do not start from them.
- 32-bit wrap-around of tmpfs and MINIX inode counters and of tmpfs's `total_size`, which nothing reads.
- `tmpfs_link`, which sets a capacity larger than it allocates.
- The table of tmpfs instances and the mount-point prefix of paths.
- simplefs file data and name checks; only its tables are modelled.
- Relative roots, components of 255 characters and more in relative paths, and `normalize_path` of an absolute path into a buffer of one byte, which it overruns.
- Stacks so small and so low that the image would run below address 0; page mapping and NULL entries in the middle of argv.
- MinixLinks.Rename: does not cover a target that is a directory, which `vfs_rename` removes with all that is in it.
- MinixNameRuns.Step: does not cover a link at 255 names, for which `MinixLinks.Link` and `MinixWrap.WrapLosesFile` say what happens, nor a move onto a directory.
- MinixNameRuns.Run: skips and reports such operations, and no others.
- FatVolume.Volume.Create: takes the slot as an argument; `FatFs.Fs.Create` finds it.
- FatVolume.Volume.Mkdir: takes the slot as an argument and does not write the dot entries; `FatFs.Fs.Mkdir` does both.
- FatVolume.Volume.Link: takes the slot, and whether the new name is found again, as arguments; `FatFs.Fs.Link` searches for both.
- FatVolume.Volume.Rmdir: takes whether the directory is empty as an argument; `FatFs.Fs.Rmdir` scans its slots.
- FatVolume.Volume.Rename: does not cover an existing target; `FatFs.Fs.Rename` unlinks it first.
- FatFs.Fs.Create: does not cover a new name that can be stored but not found again; `FatDirs.Directory.Create` says what such a name does to a directory. The same holds for Mkdir, Link and Rename.
- FatFs.Fs.Rmdir: does not cover "." and "..".
- FatFs.Fs.Rename: does not cover a target that is a directory.
- FatRuns.Run: skips and reports operations of these kinds, and no others.
- FatDirs.Step: does not cover creating a name that can be stored but not found again. The same holds for FatDirs.Run.
- MountRouting.Vfs.MountFs: takes the outcome of another backend, and of the device check simplefs makes first, as an argument; unknown types, missing privileges and over-long paths, all refused before anything changes, are absent, a NULL device is the name "none", and over-long device names are not cut.
- MountRouting.Vfs.UmountFs: takes the outcome of a backend other than simplefs as an argument.
