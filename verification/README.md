# chouryos in Dafny

A model of the in-memory algorithms of the chouryos kernel, and proofs about them:

* copy-on-write memory: the frame bitmap, page tables with the P, R_W, U_S and AVL bits, the
  page share list `PSL` (headers and 16-bit chains packed in one array), `sys_fork`, the
  write-fault branch, `cleanup` and `cleanchild`. The main theorem is that any run of fork,
  user-mode store, exit and wait answers, and shows every live process at every linear address,
  what it would if fork copied every page at once, and loses no frame but one for each child
  reaped (`CowSystem.Run`).
* the message rendezvous of `msg_read` and `msg_write` over one linked list of readers and
  writers, for every interleaving of calls and resumptions (`Messages.MessageQueue.Run`).
* the calendar: `kernel_mktime` against a year-by-year, month-by-month calendar, `time_to_tm`
  as its inverse on every signed 32-bit time, and the create stamp of a FAT32 file.
* the FAT: 12, 16 and 32-bit entries behind a one-sector cache, exactly what a write leaves on
  the disk, for which links releasing a chain ends and for which it runs for ever
  (`FatEnds.AlwaysEndsIff`), walking chains, reading files in pieces, and moving in them.
* `umemcpy` through mapping windows, the number printer and parser, the first-fit heap, the
  round-robin scheduler and the Bresenham line.

Code that changes things in place is a class or a method over arrays here too, with loops where
the source has loops. What holds between the steps is said by predicates on values, and the
lemmas about those values carry the proofs. `hide` keeps the solver from unfolding predicates a
proof does not need.

The files, in the order in which they build on each other:

| files | about |
|---|---|
| `Basics`, `Paging`, `PageShareList`, `SharedMemory`, `CowKernel` | shared notions; entries and frames; the share list as an array; which entries share a frame; `getmpage`, `freempage`, `sharepage`, `devpage` |
| `AddressSpaces`, `Fork`, `ForkLoop`, `ForkDone`, `ForkCall`, `Fault`, `Exit` | what a process reads; fork table by table; the write fault; teardown |
| `CowSystem`, `FrameCounts`, `Boot` | runs against the eager machine; who maps a frame; a state to start from |
| `Transfers`, `Rendezvous`, `Messages` | bytes moved between calls; the pending entries as values; the list itself |
| `Calendar`, `FatStamp` | dates and times; time stamps of directory entries |
| `FatEntries`, `FatTable`, `FatWrite`, `FatCache` | packed entries; where they are looked for; what a write leaves; the code with its sector buffer |
| `FatChain`, `FatBack`, `FatFile` | chains and seeking; where seeking back is right; files |
| `FatRelease`, `FatMeasure`, `FatEnds` | releasing pass by pass; what a pass lowers; when it ends |
| `FatData` | where clusters lie; that table writes leave files alone |
| `UserCopy`, `NumberText`, `NumberParse`, `Heap`, `Scheduler`, `Bresenham` | one algorithm each |

Where code and promise differ, the model follows the code:

* `writenextclus` computes a FAT32 sector from `clus*4`, `getnextclus` from `clus*32` in 32 bits,
  which wraps from cluster 2^27 on; and `getnextclus` looks for the second half of a straddling
  12-bit entry in sector `...+2`, right only if one sector is reserved. `ReadsRight` is exactly
  the condition under which the entry is read (`SeenIsEntry`, `SeenWrong`).
* `writenextclus` puts the first half of an odd straddling 12-bit entry, without its bits, into
  sectors `...+1` and `...+10`, and does not mask the second half of an even one. `WriteRight` is
  exactly the condition under which the entry and nothing else is written (`AfterTable`,
  `AfterWrong`); clearing an odd one is right on the layout of a floppy disk, with one reserved
  sector and 9 sectors a table.
* The loop of `releaseclus` clears the entry at the place of a write and follows the link from
  the place of a read. It ends on all contents of the disk exactly if these agree for every
  cluster number, that is for 16 bits, and for 12 bits with one reserved sector
  (`AlwaysEndsIff`). Inside a table exactly the links of `Tame` cannot keep it going
  (`EndsIfTame`, `RunsForEver`); if its entries are all read and cleared in their places, as on
  FAT32 up to 2^27 of them, it ends for all links that stay inside the table (`ClosedEnds`).
* `writenextclus` writes a second copy of the table whatever `BPB_NumFATs` says. With two tables or
  more no file is touched (`WriteKeepsFiles`); on FAT32 with one it goes over the data
  (`OneTableDamages`).
* `getpreclus` reads every entry up to the one it looks for, so a misread one on the way can
  answer for it. On 12-bit tables of more than one sector with more than one reserved sector a
  free cluster can lead a backward seek astray; on all other layouts it is right
  (`BacksRightIff`).
* `getpreclus` of the first cluster of a file has nothing to answer: seeking back from a cluster
  border into the first cluster ends there (`SeekIndex`, `FileLseek`).
* `offset + len` in `file_read` and `Fat_read`, and `numbytes + 8` in `malloc`, are 32-bit sums.
  `FileRead` and `Malloc` say what comes of a sum that wraps.
* A FAT32 create stamp comes back from open and close exactly if it is a date whose time is below
  2^31 seconds (`FatStamp.OpenClose`).
* `file_lseek` counts whole clusters of the target, while a position at a cluster border belongs
  to the cluster before it. `FileLseek` says for which targets the position is right afterwards.
* `simple_strtoul` knows only the small `x`, so of a prefixed hexadecimal number base 0 reads
  back exactly the ones printed with small digits (`HexReadsBackIff`); and it takes decimal text
  that was padded with zeros for octal (`DecimalReadsBackIff`).
* `cleanchild` never returns the frame of the last page table (`Exit.CleanChild` says which).
* Only 32 mapping windows exist, because kernel/memory.c:21 marks 4 bytes of `MTMAP` free;
  `umemcpy` takes up to five of them at once.
* `msg_write` bounds each copy by `len` and not by what is left; that it never sends too much
  rests on there being at most one matching reader (`ReaderIsAlone`).

## Model

| member | source | states |
|---|---|---|
| CowSystem.Run | kernel/fork.c:45-76 | every sequence of fork, user store, exit and wait answers call by call what the machine that copies all pages eagerly answers; at the end the same slots are unused, alive or dead and every live process reads the same byte at every linear address; no frame is lost but at most one for each child reaped; only a call that the eager machine could not do either, or that runs out of frames or slots, ends it early |
| CowSystem.DoFork | kernel/fork.c:13-86 | the first unused slot from 1 on becomes ready with the whole space of the parent, and there is no child exactly if none of 1 to 9 is unused; nothing else changes |
| CowSystem.DoStore | kernel/init.c:71-82 | one user store, through the write fault if the entry is read-only, changes the byte at one linear address for the writer and nothing for anybody else |
| CowSystem.DoExit | kernel/exit.c:59-95 | exit makes its slot dead, removes that space, and leaves all other slots and spaces as they were |
| CowSystem.DoWait | kernel/exit.c:97-107 | the slot of the reaped child becomes unused, all other slots and spaces stay, and one frame at most is lost |
| CowSystem.StopsShort | kernel/fork.c:13-86 | whatever the eager machine can do the kernel can do too, unless a fork finds too few frames or share-list slots, or a store finds no frame at all |
| FrameCounts.MappedFrame | kernel/memory.c:123-195 | in every reachable state a mapped frame is in use and mapped either by one private writable entry or by exactly the k >= 2 shared read-only entries that its header counts |
| FrameCounts.UsedFrame | kernel/memory.c:52-74 | in every reachable state a frame in use that is no table and was not lost is mapped in one of these two ways |
| FrameCounts.HeaderCountsMappers | kernel/memory.c:128-151 | conversely the index of every header is the number of entries that map its frame |
| FrameCounts.FixedPagesAlone | kernel/fork.c:55-76 | argument page and kernel stack of a live process are mapped by nobody else |
| FrameCounts.DevUndoesShare | kernel/memory.c:162-195 | `devpage` of the member that `sharepage` added restores the sharing relation |
| FrameCounts.DevUndoesShareMem | kernel/memory.c:152-155 | and restores every entry but the added one, AVL and R_W included |
| CowKernel.Kernel.GetPage | kernel/memory.c:52-63 | hands out the lowest free frame, which is at least RESPAGE, and marks only it used |
| CowKernel.Kernel.FreePage | kernel/memory.c:65-74 | a used frame becomes free; a free one is reported and left alone |
| CowKernel.Kernel.AddSharer | kernel/memory.c:128-136 | a shared frame gains one member at the end of its chain, in the lowest free slot; the share list stays well formed |
| CowKernel.Kernel.StartSharing | kernel/memory.c:137-149 | a private frame gains a header and two members in the three lowest free slots; the share list stays well formed |
| CowKernel.Kernel.SharePage | kernel/memory.c:123-159 | both entries become shared and read-only and exactly they join the sharers of the frame; all invariants of the share list and of the sharing survive |
| CowKernel.Kernel.Unchain | kernel/memory.c:185-190 | of three or more sharers one leaves its chain and its slot becomes free |
| CowKernel.Kernel.EndSharing | kernel/memory.c:167-184 | of two sharers both leave, all three slots become free and the other entry becomes private and writable |
| CowKernel.Kernel.DevPage | kernel/memory.c:162-195 | the entry becomes private and writable, exactly it leaves the sharers, a sharer left alone becomes private too; all invariants survive |
| PageShareList.AppendKeepsWf | kernel/memory.c:128-136 | chains stay disjoint, acyclic, 0-terminated and as long as the header says when one grows, and the free slots lose exactly the one used |
| PageShareList.StartKeepsWf | kernel/memory.c:137-149 | the same when a header with two members is made |
| PageShareList.DropKeepsWf | kernel/memory.c:185-190 | the same when a member leaves |
| PageShareList.EndKeepsWf | kernel/memory.c:167-184 | the same when a sharing ends, giving back its three slots |
| PageShareList.OnlyHeaderNamesFrame | kernel/memory.c:166 | searching a frame number by `pagec` alone finds its header and never a member |
| PageShareList.CountFits | include/type.h:134-138 | the members of a chain are so few that a 16-bit index counts them |
| SharedMemory.ShareKeeps | kernel/memory.c:152-155 | setting AVL and clearing R_W of both entries keeps the agreement between page tables, bitmap and sharers |
| SharedMemory.UnshareKeeps | kernel/memory.c:167-193 | so does taking one entry out of its sharers |
| ForkCall.ForkLoses | kernel/fork.c:36-76 | every frame a fork takes ends up as a table or mapped, and no frame loses its last use |
| Fault.BreakLoses | kernel/init.c:74-77 | breaking a sharing leaves the old frame mapped by somebody else and the new one mapped |
| Fork.ShareTable | kernel/fork.c:53-64 | after the loop over one table every entry of the child's table maps what the parent's does, the argument page a copy of it, and nothing else changed |
| ForkDone.PrivateStays | kernel/fork.c:45-68 | a page somebody had to himself is still his own after the loop, but for the parent's kernel stack |
| ForkDone.StackSharers | kernel/fork.c:70-76 | the kernel stack is then shared by exactly parent and child, so one `devpage` makes both private |
| ForkCall.SysFork | kernel/fork.c:13-86 | -1 exactly if no slot is unused; otherwise the first unused slot gets a space that reads like the parent's, from the very same frames but for argument page and stack; frames go only to the directory, the tables and these two pages; every process reads what it read before |
| Fault.WriteFault | kernel/init.c:71-82 | nobody reads anything else than before, at any linear address; the page in directory entry `cr2 / 0x400000`, table entry `cr2 / 0x1000 % 0x400` is private and writable; that takes exactly one frame if it was shared, and changes nothing if it was not |
| Fault.UserStore | kernel/init.c:71-82 | in terms of the translation written out bit field by bit field: afterwards the writer reads the new byte at exactly this linear address, and every other byte at every linear address of every process is what it was |
| Fault.LoadIsRead | include/memory.h:12-13 | directory and table index as the kernel computes them name the page that the translation finds |
| Exit.DropEntry | kernel/exit.c:28-35 | the frame of a dropped entry becomes free exactly if no other live entry maps it |
| Exit.ReleaseTable | kernel/exit.c:25-40 | a whole table goes, and of the frames it mapped exactly the unshared ones |
| Exit.Cleanup | kernel/exit.c:19-56 | of the frames that were mapped exactly those are free that no remaining entry maps, and the tables given up are free; all other processes read as before |
| Exit.CleanChild | kernel/exit.c:97-107 | stack and directory are returned and the last table's frame alone is lost; nobody's space changes |
| Boot.Start | kernel/init.c:188-203 | there is a state from which runs can start, in which every frame from RESPAGE on is free, a table, or mapped, and in which a fork and a store can be done |
| Transfers.TransferKeeps | kernel/msg.c:62-67 | moving bytes between a matching writer and reader keeps every pending call's account of what it moved, where its buffer stands and what is left |
| Transfers.Conserved | kernel/msg.c:62-67 | all readers together received exactly the bytes all writers together sent |
| Rendezvous.ServeKeeps | kernel/msg.c:62-72 | serving a matching entry keeps that no incomplete reader and matching incomplete writer are both pending, that results are prefixes of the data sent, and all accounts |
| Rendezvous.Enqueue | kernel/msg.c:81-89 | a call whose walk found nothing more may join the list without breaking that |
| Rendezvous.TakeOut | kernel/msg.c:94-97 | nor does taking an entry out break it |
| Messages.MessageQueue.MsgRead | kernel/msg.c:53-92 | serves exactly the entries that fit, in list order and as far as both sides go, until content; then returns the number of bytes it put in its buffer, in order, or its rest joins the list and it blocks; no memory changes but as many bytes of its own buffer as it got |
| Messages.MessageQueue.MsgWrite | kernel/msg.c:103-142 | the same walk for a writer, although each copy is bounded by `len`: what was sent are that many first bytes of its data; no byte changes but those between the old and the new buffer position of the reader entries it served |
| Messages.MessageQueue.TakeFrom | kernel/msg.c:62-72 | a reader takes the smaller of what it wants and what the entry has left; an entry of which nothing is left, or that does not insist, is complete and its owner awake |
| Messages.MessageQueue.SendTo | kernel/msg.c:112-122 | a writer gives the smaller of what it has left and what the entry wants, because `len` is still all it has left |
| Messages.MessageQueue.ReaderIsAlone | kernel/msg.c:109-112 | after one reader was served no other entry can match the writer |
| Messages.MessageQueue.Meet | kernel/msg.c:62-72 | one meeting moves the bytes between the buffers and changes no other byte, logs them, completes and wakes the owner exactly if nothing is left or it does not insist |
| Messages.MessageQueue.Resume | kernel/msg.c:93-100 | a woken call returns the number of bytes it moved, exactly its entry leaves the list, and no memory changes |
| Messages.MessageQueue.Step | kernel/msg.c:53-153 | an operation of a process that is blocked or in the wrong place changes nothing; a call is recorded, does what its walk says and has an entry afterwards exactly if it blocked; a resumption takes its entry away; a store changes its own bytes |
| Messages.MessageQueue.Run | kernel/msg.c:53-153 | every interleaving of calls, resumptions and stores by processes outside of calls keeps all of it; each step does what `Stepped` says of its operation; a byte of memory changed only if its process stored to it or named it in the buffer of a reading call |
| Messages.MessageQueue.AtRest | kernel/msg.c:58-89 | between steps a process is blocked exactly as long as it owns an incomplete entry (or one complete from the start), no process owns two entries, no matching incomplete pair exists, results are what was logged and prefixes of what was sent, sent equals received |
| Calendar.Floor | lib/times.c:186-189 | `math_div` on truncating division rounds down |
| Calendar.FewLeaps | lib/times.c:192-199 | of d years in a row at least none and at most (d+3)/4 are leap years by the formula |
| Calendar.YearsInDays | lib/times.c:192-199 | the leap-year formula counts what adding the years one by one counts |
| Calendar.YearByMonths | lib/times.c:202-207 | both rows of the month table are the sums of the month lengths |
| Calendar.MktimeIsSeconds | lib/times.c:116-132 | the closed form equals the calendar's seconds for every date in years 1 to 2^32-1 |
| Calendar.MktimeExact | lib/times.c:116-132 | the returned 32-bit time is that number exactly if it fits |
| Calendar.MktimeMonotone | lib/times.c:116-132 | on dates whose time fits, earlier means a smaller time, both ways |
| Calendar.SecondsOrder | lib/times.c:116-132 | dates and their seconds are ordered alike, and no two dates have the same seconds |
| Calendar.GuessStep | lib/times.c:250-257 | one correction of the year keeps the absolute day, comes strictly nearer, and stays within a `long` |
| Calendar.YearOf | lib/times.c:248-257 | the guessing loop ends for every number of days, negative ones too, at the year and day of that absolute day |
| Calendar.MonthOf | lib/times.c:263-269 | the month loop finds the month and day of the day of the year |
| Calendar.TimeToTm | lib/times.c:222-270 | for every signed 32-bit time a valid date with these seconds, the only one; `kernel_mktime` of it is the time again; weekday and day of the year are right |
| FatStamp.WrapShows | kernel/fat.c:424-430 | a time that wrapped is off by 16 seconds within the minute, so its stamp cannot come back |
| FatStamp.OpenClose | kernel/fat.c:582-588 | the create stamp after open and close is the one before exactly if it is a date whose time is below 2^31 |
| FatEntries.Entries12 | kernel/fat.c:175-193 | two entries of 12 bits lie in three bytes behind the reserved sectors, the lowest bits first |
| FatEntries.Entries16 | kernel/fat.c:194-196 | an entry of 16 bits lies in two bytes, the lowest first |
| FatEntries.Entries32 | kernel/fat.c:197-200 | an entry of 32 bits lies in four bytes, the lowest first |
| FatEntries.PutOne | kernel/fat.c:208-256 | bytes written for one entry give that entry its value and leave every other entry, the 12-bit neighbour included |
| FatEntries.PutTable | kernel/fat.c:204-258 | so the whole table is the old one with one entry replaced |
| FatTable.SeenIsEntry | kernel/fat.c:166-201 | `getnextclus` finds the entry for every table if the cluster is below 2^27 (32 bits) and does not straddle, or one sector is reserved |
| FatTable.SeenWrong | kernel/fat.c:171-193 | for any other cluster there is a disk on which it finds something else |
| FatWrite.AfterTable | kernel/fat.c:204-258 | under `WriteRight` the table after the write is the old one with this entry replaced by the value as far as it fits; only the sectors of the entry and their twins differ, and these agree |
| FatWrite.AfterWrong | kernel/fat.c:220-242 | for any other cluster and value there is a disk on which the entry, its neighbour or the second copy comes out wrong |
| FatWrite.WriteThenRead | kernel/fat.c:166-258 | after such a write the cluster reads as the value written and every other one as before |
| FatCache.Fat.ReadSector | kernel/fat.c:52-59 | the buffer is the sector, from the disk or still from before |
| FatCache.Fat.WriteSector | kernel/fat.c:64-68 | the sector on the disk is the buffer, which is then the cached sector |
| FatCache.Fat.GetNextClus | kernel/fat.c:166-201 | answers what the two sectors on the disk say, for every cluster number whose sectors exist, the end mark for numbers that are no clusters; changes no disk and keeps the cache true |
| FatCache.Fat.WriteNextClus | kernel/fat.c:204-258 | leaves the disk of `After` for every cluster number and value, which under `WriteRight` is exactly this entry of the table, in both copies; -1 and no change for numbers that are no clusters |
| FatRelease.ReleaseClus | kernel/fat.c:287-304 | wherever the loop ends, the disk is the one that clearing link by link gives; -1 and no change for numbers that are no clusters |
| FatRelease.ReleaseFreesTail | kernel/fat.c:291-303 | on a file, whatever else the table holds, it ends; exactly the clusters behind the given one become free, and it becomes free or the last; the free count rises by as many; nothing outside the two copies changes |
| FatRelease.ReleaseSparesOthers | kernel/fat.c:291-303 | every chain disjoint from it stays a chain |
| FatEnds.EndsIfReadRight | kernel/fat.c:298-302 | as long as the clusters met are read where they are written, in the table or behind it, the loop ends, cyclic links or not |
| FatEnds.EndsIfTame | kernel/fat.c:298-302 | a run that meets only clusters inside the table for which tame is enough ends, although some of these are read wrongly |
| FatEnds.RunsForEver | kernel/fat.c:171-230 | conversely from every other cluster of a table there is a run without end among clusters of the table, and `releaseclus` of it does not return |
| FatEnds.ClosedEnds | kernel/fat.c:298-302 | if every link of the table is a cluster of it or no cluster, and its entries are all read and cleared in their places, the loop ends from every cluster of the table, cyclic links or not |
| FatEnds.ClosedReleaseEnds | kernel/fat.c:287-304 | and so does `releaseclus` of it |
| FatEnds.InPlaceIff | kernel/fat.c:166-258 | all entries are read and cleared in their places exactly for 16 bits, for FAT32 up to 2^27 entries, and for 12 bits on a table of one sector or on the layout of a floppy disk |
| FatEnds.Closed32Iff | kernel/fat.c:171-252 | on FAT32 disks that have all sectors the loop ends for all tables whose links stay inside exactly up to 2^27 entries |
| FatEnds.ReleaseIsLoop | kernel/fat.c:287-304 | giving the first cluster back too, `releaseclus` ends exactly if its loop does from that cluster |
| FatEnds.AlwaysEndsIff | kernel/fat.c:166-304 | on disks that have the sectors of all cluster numbers, the loop, and every call of `releaseclus`, ends for all contents and all links exactly if every cluster number is read right: 16 bits, or 12 bits with one reserved sector |
| FatEnds.EveryReleaseEnds | kernel/fat.c:287-304 | on such file systems every call of `releaseclus` ends |
| FatChain.FilesHaveOnePredecessor | kernel/fat.c:261-268 | if files are disjoint chains and no link is outside of them, no two entries lead to one cluster |
| FatChain.BeforeIs | kernel/fat.c:261-268 | the scan's answer is the first cluster that leads to the given one, or the end mark if none does |
| FatChain.BeforeInChain | kernel/fat.c:261-268 | behind the first cluster of a file it is the cluster before, if no cluster below that one is misread |
| FatChain.GetPreClus | kernel/fat.c:261-268 | the loop answers that, whether there is such a cluster or not |
| FatChain.FatSeek | kernel/fat.c:502-521 | from cluster k of a file cluster k + d, for every d of either sign inside the chain, backward as long as no cluster below the ones passed is misread; one further back what the scan answers for the first cluster |
| FatChain.SeekThereAndBack | kernel/fat.c:502-521 | the backward scan undoes the forward walk, under the same condition |
| FatBack.GoesAstray | kernel/fat.c:184-191 | on every 12-bit table of more than one sector with more than one reserved sector a disk with a single file of two clusters, on which the search answers a free cluster for the one before the second |
| FatBack.BacksRightIff | kernel/fat.c:261-268 | on all tables without a second predecessor the search is right in all files exactly for 16 and 32 bits, one reserved sector, or a table of one sector |
| FatFile.ReadClus | kernel/fat.c:142-151 | byte j of the buffer is byte `j % 512` of sector reserved + tables (+ root directory, but for FAT32) + `(clus - 2)` clusters + `j / 512` |
| FatFile.FatRead | kernel/fat.c:451-472 | refused without change beyond the length; otherwise the bytes of the file at the position, which moves on and keeps its cluster; running past the end exactly if the sum of position and length wraps |
| FatFile.FileRead | kernel/file.c:52-57 | as many bytes as asked for or left, exactly if that sum does not wrap |
| FatFile.ReadPieces | kernel/file.c:52-57 | any sequence of lengths none of which wraps gives the bytes that one read of their sum gives |
| FatFile.SeekIndex | kernel/file.c:68-89 | counting clusters reaches the cluster of the target exactly if target and start are alike at a border or not; it never goes further back than -1, and there exactly from a border into the first cluster |
| FatFile.FileLseek | kernel/file.c:60-105 | new offset, length and answer in each case, and exactly when the current cluster is again the one of the position; backward under the condition of `FatSeek` |
| FatFile.SeeksCompose | kernel/file.c:71-85 | two moves from the position are one of their sum, wrap-around included, and no move answers the position |
| FatData.Tiles | kernel/fat.c:128-138 | cluster 2 starts behind reserved sectors, tables and root directory, and each cluster where the one before ends |
| FatData.ClustersApart | kernel/fat.c:142-144 | no two clusters have a sector in common |
| FatData.BehindTables | kernel/fat.c:128-138 | with two tables at least no cluster has a sector in common with the two copies that are written |
| FatData.ContentIs | kernel/fat.c:142-151 | byte p of a file, by sector number and place in the sector |
| FatData.WriteKeepsFiles | kernel/fat.c:204-258 | a right write of an entry leaves the bytes of every file, and every chain without its cluster |
| FatData.ReleaseKeepsFiles | kernel/fat.c:287-304 | releasing clusters of one file leaves the chain and the bytes of every disjoint one |
| FatData.OneTableDamages | kernel/fat.c:251-255 | on FAT32 with a single table, on every such layout, a write of an entry changes the bytes of a file |
| UserCopy.Mapper.MapPage | kernel/memory.c:78-92 | the first free window shows the frame, and only that window changes |
| UserCopy.Mapper.UnmapPage | kernel/memory.c:94-110 | the window is free again |
| UserCopy.Mapper.UMemCpy | kernel/memory.c:198-271 | each of the three branches is the copy byte by byte through both page tables, and every window taken is returned |
| UserCopy.Mapper.CopyIn | kernel/memory.c:200-218 | into the running process: pieces within one page of the source make up the whole copy |
| UserCopy.Mapper.CopyOut | kernel/memory.c:221-239 | out of the running process: pieces within one page of the destination do |
| UserCopy.Mapper.CopyAcross | kernel/memory.c:242-270 | between two others: pieces within one page on both sides do |
| UserCopy.CopiedReads | kernel/memory.c:198-271 | if no byte is written twice and none of the source is written, the destination then reads as the source did |
| UserCopy.CopyLoads | kernel/memory.c:198-271 | in terms of the same translation: whoever reads an address whose place is one of the destination then reads the byte of the source, and every other address reads as before |
| NumberText.Number | lib/vsprintf.c:72-126 | writes sign, prefix, zeros, digits and filling in the order the flags ask for, and nothing behind them; nothing at all for a base outside 2 to 36 |
| NumberText.DigitCharsAre | lib/vsprintf.c:75-80 | ten figures, then letters in the order of the alphabet, small exactly if asked for |
| NumberText.Convert | lib/vsprintf.c:96-100 | the digits fit: at most 32 of the 36 places are used |
| NumberText.FormatLength | lib/vsprintf.c:89-124 | the text is as long as the width, or as sign (1), prefix (2 or 1) and the larger of precision and digits if they need more |
| NumberParse.SimpleStrtoul | lib/vsprintf.c:22-45 | the value of the longest run of digits modulo 2^32, and where it ends |
| NumberParse.DigitsRead | lib/vsprintf.c:96-100 | the digits printed in a base stand for the value in that base, without leading zero |
| NumberParse.OnlyThese | lib/vsprintf.c:37-38 | the characters with a value are the hexadecimal digits of either case |
| NumberParse.PrintedReadsBack | lib/vsprintf.c:22-126 | unsigned text without blanks, in base 2 to 16, any precision and zero-padded width, reads back in its base and is used up exactly if it has no prefix with an x |
| NumberParse.OctalReadsBack | lib/vsprintf.c:26-36 | so does prefixed octal text in base 0 |
| NumberParse.HexReadsBackIff | lib/vsprintf.c:26-36 | and prefixed hexadecimal text exactly if it was printed with small letters |
| NumberParse.DecimalReadsBackIff | lib/vsprintf.c:26-36 | and decimal text exactly if it has no leading zero or is below 8 |
| NumberParse.SignedReadsBack | lib/vsprintf.c:72-126 | for all flags, width and precision: once blanks and a sign are read, the text gives back the signed number exactly unless an x prefix stands before one that is not 0, and has at least as many digits as the precision |
| NumberParse.SignsAndBlanks | lib/vsprintf.c:84-124 | which sign stands in the text, and that blanks stand behind the number only if it is on the left, before it otherwise, and nowhere if zeros take their place |
| Heap.Heap.Search | lib/malloc.c:61-95 | the walk over the sizes comes out at the last valid address and finds the first available block that is large enough |
| Heap.Heap.Malloc | lib/malloc.c:38-124 | a new pointer to the first fitting block, or to a new block at the end exactly if none fits; no byte but of its control block changes; the block is as large as asked for, and the heap sound, exactly if size and control block have a sum of 32 bits |
| Heap.Heap.Free | lib/malloc.c:25-35 | the block is available again, and no other byte than its flag's changes |
| Heap.Heap.Write | lib/malloc.c:116-123 | writing inside what was asked for harms no control block |
| Heap.Heap.Run | lib/malloc.c:25-124 | over every history each step does what `Stepped` says: a request is served exactly if it can be, from the first block that fits; the control blocks tile the heap and the pointers handed out are exactly the blocks not available |
| Heap.Heap.Step | lib/malloc.c:25-124 | a request gives a new pointer and changes its control block only, a return one flag, a store one byte, and what cannot be done changes nothing |
| Heap.Survives | lib/malloc.c:25-124 | over any run a pointer stays live until it is given back, and every byte of its block keeps its value until the owner stores to it |
| Heap.Heap.Apart | lib/malloc.c:25-124 | payloads of live pointers are at least as large as asked for, inside the heap, and a control block away from each other |
| Heap.PayloadsApart | lib/malloc.c:19-22 | the same, of any tiling |
| Scheduler.Table.SwitchTo | kernel/schedule.c:61-76 | the old process becomes ready if it was running and stays as it was if not, the new one is running and current, all others stay |
| Scheduler.Table.Schedule | kernel/schedule.c:23-44 | picks the first ready slot behind the current one, cyclically without slot 0; none ready: stays if running, else the idle process; the slot that gives way is ready if it was running, and no third one changes |
| Scheduler.Table.Block | kernel/schedule.c:47-53 | the process waits and one is picked, unless it is process 0 or unused |
| Scheduler.Table.Run | kernel/schedule.c:23-76 | a history of ticks, `block` and `unblock` in any order, each of which does what `OneCall` says |
| Scheduler.IdleOnlyWhenNobody | kernel/schedule.c:41-43 | the idle process is switched to only if nobody is ready and the current one is not running |
| Scheduler.Closer | kernel/schedule.c:33-39 | every call that picks another process brings a ready one nearer |
| Scheduler.Fair | kernel/schedule.c:23-44 | over every history of ticks, `block` and `unblock`, a process that is ready or running at the start and that nobody blocks is current after at most MAX_PROCESS - 1 scans |
| Bresenham.BresenhamLine | driver/graphy.c:4-34 | one point for every step along x, the k-th on the row nearest to the ideal line |
| Bresenham.DrawLine | driver/graphy.c:37-61 | in all four cases of slope one pixel for every step along the major axis, without the far end, each at most half a pixel off along the minor axis |

## Left out

- CowSystem.Run: fork, fault, exit and wait are single steps; the interrupts that `sys_fork` lets in after kernel/fork.c:40 are not modelled.
- CowSystem.Run: enough free frames and share-list slots are conditions of each call (`ForkFits`, `StoreFits`); `getmpage` running dry and a share list beyond slot 65535, which its 16-bit links cannot name, are not modelled.
- CowSystem.DoExit: waking the waiting parent and handing the children to process 1 are not modelled, since no parent is recorded.
- ForkCall.SysFork: of the process control block only status and directory; registers, files, signals and parent are not modelled.
- Boot.Start: the identity-mapped boot pages of process 0, whose frames never came from `getmpage`, are not modelled.
- Fault.WriteFault: only code 7; faults on pages that are not present, and stores by the kernel itself, which ignore R_W, are not modelled.
- Kernel entries of the directories (below user space), the TLB and `invlpg`. Windows onto frames are modelled in `UserCopy` only; elsewhere a frame is reached directly.
- `execve` and loadable modules: ELF loading over I/O; it calls `devpage` on pages that are not shared and does not free them.
- The answer of `sys_wait` when there is no child.
- Messages.MessageQueue.MsgRead: up to its return or to `block` one step, as the `cli` intends; process 0, which `block` lets go on, makes no calls; the buffers of a call lie in the caller's memory.
- Messages.MessageQueue.Meet: `umemcpy` is a copy between two memories here; `UserCopy` has its page-table side. `block` and `unblock` only set who is blocked; `Scheduler` has their other side.
- The message file descriptors of `sys_message`.
- Calendar.YearOf: `long` arithmetic is unbounded; `GuessStep` shows that it stays within 32 bits for day counts up to 2^29.
- Reading the clock chip.
- FatCache.Fat.WriteNextClus: sectors of 512 bytes and two copies of the table; `writeHd` does what its name says, since the driver's is empty.
- FatRelease.ReleaseClus: requires that the loop ends, of which `FatEnds` says when; runs without end, and accesses behind the last sector of the disk, are not modelled as calls.
- FatRelease.ReleaseFreesTail: files whose tail passes an odd straddling 12-bit entry only on the layout on which clearing one is right; on others `AfterWrong` shows the damage.
- FatChain.FatSeek: backward past a misread cluster, which `FatBack.GoesAstray` shows to fail, nothing is promised.
- FatChain.FatSeek: past the end of a chain the file would grow, which is answered None here.
- Growing and writing files: `getblankclus` and `Fat_expand` do not mark a cluster taken before the next search, and `Fat_write` counts cluster numbers from the data area, so no round trip holds there.
- FatFile.FileLseek: backward under the condition of `FatSeek`; from a position that is in place, in files with at least one cluster, to clusters the file has.
- FatFile.FatRead: a read whose sum wraps is only said to run past the end of the file, not what it leaves in memory; answers of 2^31 and more come back from `int` functions as negative numbers.
- Directory search, long names, boot sector, and opening and closing beyond the time stamps.
- NumberText.Number: width and precision are unbounded integers; their sum does not wrap.
- The format scanner of `vsprintf`, which needs variable arguments.
- Heap.Heap.Malloc: requires memory behind the heap for a request that no free block serves; the code takes addresses without asking anybody.
- Heap.Heap.Run: requests that wrap are not made, because the heap is not sound after one.
- Scheduler.Table.Schedule: with the last slot of the table current the scan reads behind the table, so slot MAX_PROCESS - 1 is never current.
- Scheduler.Table.Block: for the same reason not with the last slot current.
- Scheduler.Table.Run: for the same reason it ends when the last slot has become current.
- Scheduler.Closer: for the same reason the last slot neither is nor becomes current.
- Scheduler.Fair: for the same reason the last slot never becomes current.
- Bresenham.DrawLine: coordinates do not wrap; clipping and the frame buffer are not modelled.
- Port I/O, interrupts, boot code, drivers, keyboard and terminal.
