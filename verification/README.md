# linux-0.01, modelled in Dafny

This project models the parts of the Linux 0.01 derivative where the state is shared and the arguments are long, and proves
what they promise.

- **Paging** (`Memory`, `MemoryRuns`, `MemoryCode`): copy-on-write frames with reference counts, two-level tables, fork,
  faults, exit. The counts are exact and tasks are isolated over every run.
- **Files** (`Zones`, `Files`, `FilesCode`): the direct, indirect and double-indirect block map over the zone bitmap.
  Blocks are owned once, the bitmap agrees with the trees, and reads and writes are those of one flat array of bytes.
- **Buffer cache** (`CacheSteps`, `CacheRuns`, `BufferLists`, `BufferCache`, `BufferCode`): a step machine with a cut at every
  sleep, and the linked lists it runs on. One buffer a block under every interleaving; transparency, and just where it ends.
- **Scheduling** (`Scheduler`, `Overflow`, `SchedulerCode`, `SleepChain`, `SleepCode`): schedule, the pids, and the chain of
  sleepers that only exists in saved local variables.
- **Cipher and keys** (`Cipher`, `CipherCode`, `CryptFiles`, `Keys`, `KeysCode`): the column transposition and its inverse,
  whole files through it, and the slot table of keys that expire.
- **Terminal** (`Console`, `ConsoleLaws`, `ConsoleCode`, `Tty`, `TtyLaws`, `TtyCode`, `Terminal`, `TerminalCode`): the
  escape-sequence machine over scrolling screen memory refines a plain 25 by 80 grid (control sequences as in section 5.4 of
  ECMA-48); the line discipline on its ring queues (sections 11.1.6 and 11.2.3 of XBD, IEEE Std 1003.1); the two together,
  where an answer to ESC Z is echoed; and what each byte, typed or written, does to the line and to the screen.
- **Program start** (`ExecArgs`, `ExecCode`): the packing of arguments and environment and their way back.

Each part has a specification on plain values, where the properties are proved, and, in a module ending in `Code`, the source's
own loops on arrays and objects, proved equal to it. Where the code panics on a caller's mistake the panic is a precondition,
and the callers modelled here prove it. Pointers into `start_buffer`, `mem_map`, the task table and the zone map are their
indices; inline assembly is replaced by its meaning. `Common` and `Bytes` hold what several parts share.

Where the code and what is promised of it part ways, the code is kept and the exact condition is proved:

- `CacheSteps.ReadIsFresh`, `CacheRuns.StaleReadWithoutTheCondition` and `CacheRuns.LostFillWithoutTheCondition`: getblk takes a
  dirty buffer off the hash before it is written, so a second process can read the block stale, or have it overwritten.
- `CryptFiles.EachBlockOnce` and `CryptFiles.BootBlockHit`: a file whose size is a multiple of 1024 keeps its first block in
  clear, and the boot block may be transposed, for that file or one with holes (and is restored by the decryption).
- `Keys.DecryPicksEncryKey` and `Keys.KeyIsShadowed`: a global key with the same hash shadows the task's own key.
- `Tty.OneLineOnlyIfAsked`: a canonical read runs past the end of a line when asked for more.
- `ExecArgs.CopyBothMeans`: after an environment that finds too few pages, the arguments run outside `page`.
- `Overflow.HalfIsExact` and `Overflow.NeverChosen`: a task that gives itself a priority above 2^30 can overflow its counter,
  and is then passed over.
- `Terminal.CleanMeans`: the echo of an answer to ESC Z takes what is left of the output; con_write then reads past its end.
- `TtyLaws.Interrupt`: the interrupt character works exactly when ISIG is not set.
- `Tty.EchoIsKept`: an echo into a full write queue loses the output in it.
- `Memory.PutPageExactly`: put_page loses a frame that is mapped already.

`dafny verify dfyconfig.toml` checks everything.

## Model

| member | source | states |
|---|---|---|
| `Memory.GetFreePageKeeps` | linux-0.01/mm/memory.c:46-73 | the frame returned is the highest that had no user, becomes one the kernel holds, is all zero, and no mapping changes; 0 comes back exactly when every counted frame has a user |
| `Memory.CopyEntryKeeps` | linux-0.01/mm/memory.c:157-172 | sharing one page: afterwards both entries are read-only, the frame has one user more and mem_map says so; kernel pages stay uncounted |
| `Memory.CopyTablesKeeps` | linux-0.01/mm/memory.c:138-177 | sharing whole tables, complete or cut short by lack of memory, keeps the invariant: the new entries mirror the old ones, write bits apart |
| `Memory.FreeTablesKeeps` | linux-0.01/mm/memory.c:94-124 | freeing a range of directory entries empties exactly those, leaves every other mapping and kernel holder, and keeps mem_map equal to the number of users |
| `Memory.UnWpPageKeeps` | linux-0.01/mm/memory.c:208-223 | after a write fault a task can read and write the page and its frame has no other user: the frame it had, if that was its alone, with just the write bit set, and else a fresh copy; the contents of every page, this one included, are as before |
| `Memory.UnWpPageFails` | linux-0.01/mm/memory.c:208-223 | a write fault runs out of memory if and only if the page is shared (or a kernel page) and every counted frame is in use |
| `Memory.CopyOnWriteCopies` | linux-0.01/mm/memory.c:215-223 | the copying branch: the new frame has the old contents, the old frame loses one user, all counts stay exact |
| `Memory.PutPageKeeps` | linux-0.01/mm/memory.c:183-206 | put_page maps the kernel's frame at one entry that maps no counted frame, as a page the task can read and write, and nothing anywhere else, or changes nothing; it fails exactly when a table is missing and no frame is free |
| `Memory.PutPageExactly` | linux-0.01/mm/memory.c:183-206 | the counts stay exact if and only if the entry mapped no counted frame: put_page does not look |
| `Memory.NoPageKeeps` | linux-0.01/mm/memory.c:183-259 | a page-not-present fault installs one zeroed page nobody else uses, which the task can read and write, or fails leaving the entry as it was; nothing else is remapped |
| `Memory.WriteIsIsolated` | linux-0.01/mm/memory.c:208-249 | a store through a protected page changes exactly that word in that one view, after which the page can be written, or nothing at all, if and only if the page is shared and there is no memory |
| `MemoryRuns.CountsFit` | linux-0.01/mm/memory.c:46-47 | no count ever passes 64, so the 16 bits of mem_map cannot overflow |
| `MemoryRuns.FailedForkRollsBack` | linux-0.01/kernel/fork.c:33-54 | when copy_page_tables fails part-way, free_page_tables restores every mem_map entry, leaves the child without directory entries and the parent as it was but for cleared write bits |
| `MemoryRuns.ForkSharesView` | linux-0.01/kernel/fork.c:33-54 | after a successful fork the child can read just what the parent could and sees the same, all of it without the write bit, which the parent has lost too on counted frames; nobody else's view changes |
| `MemoryRuns.StepKeeps` | linux-0.01/mm/memory.c:52-259 | fork, both faults, stores, exits, exec's put_page, kernel allocations and the kernel's stores into its own pages each keep the invariant, and leave where every other task's entries lead and what it sees in counted frames |
| `MemoryRuns.CountsExactInEveryRun` | linux-0.01/mm/memory.c:46-119 | over every run mem_map of each counted frame is the number of its page table entries, directory entries and kernel holders |
| `MemoryRuns.AccessInEveryRun` | linux-0.01/mm/memory.c:183-259 | in every state of every run a task can read every page that is present, and write it exactly when its write bit is set: no present entry is without the user bit, no table without the write bit |
| `MemoryRuns.IsolationInEveryRun` | linux-0.01/mm/memory.c:138-249 | whatever the kernel and other tasks do in a run, a task's entries lead where they led, and what it sees in frames from LOW_MEM up does not change |
| `MemoryRuns.ChildKeepsSnapshot` | linux-0.01/mm/memory.c:138-177 | a child that does nothing still has, after any later run of the others, what its parent had at the fork; after the first fork, the kernel's first pages |
| `MemoryRuns.BootIsOk` | linux-0.01/mm/memory.c:46-50 | the invariant holds at the start |
| `MemoryCode.Paging.GetFreePage` | linux-0.01/mm/memory.c:52-73 | the scan down mem_map takes the frame the specification names, clears it and counts it |
| `MemoryCode.Paging.FreePage` | linux-0.01/mm/memory.c:78-88 | frees as specified; the panic on a free page is its precondition, which every caller here proves |
| `MemoryCode.Paging.CopyPageTables` | linux-0.01/mm/memory.c:138-177 | the loops over directories and tables do what the specification says, and succeed exactly when it copies every entry |
| `MemoryCode.Paging.FreePageTables` | linux-0.01/mm/memory.c:94-124 | the loops free what the specification frees |
| `MemoryCode.Paging.UnWpPage` | linux-0.01/mm/memory.c:208-223 | does what the specification of the write fault says |
| `MemoryCode.Paging.WriteVerify` | linux-0.01/mm/memory.c:238-249 | afterwards the task can write the present page, it shows the same contents, and no other view has changed; without memory nothing has |
| `MemoryCode.Paging.PutPage` | linux-0.01/mm/memory.c:183-206 | does what the specification of put_page says |
| `MemoryCode.Paging.DoNoPage` | linux-0.01/mm/memory.c:251-259 | does what the specification of the page-not-present fault says |
| `MemoryCode.Paging.CopyMem` | linux-0.01/kernel/fork.c:33-54 | shares the parent's tables or, when that fails, frees the child's, as specified, and keeps the invariant of all runs |
| `MemoryCode.Paging.constructor` | linux-0.01/mm/memory.c:46-50 | memory as the boot leaves it, where the invariant of all runs holds |
| `Zones.NewBlockIsFresh` | linux-0.01/fs/bitmap.c:67-97 | the first clear bit of the map is taken: if it stands for a zone, that comes back; it belonged to no file, is zeroed, and no pointer anywhere reads differently; if not, it is set for nothing and 0 comes back, as when none is clear |
| `Zones.PutAt` | linux-0.01/fs/inode.c:60-115 | storing a fresh zone number at one place of a tree changes that pointer and no other |
| `Zones.EnsureKeeps` | linux-0.01/fs/inode.c:60-115 | looking up or making one pointer keeps ownership; it fails only when the map is full |
| `Zones.BmapReads` | linux-0.01/fs/inode.c:117-120 | bmap changes nothing and returns what stands at the block's place in the three-level tree |
| `Zones.BmapLayout` | linux-0.01/fs/inode.c:49-125 | the layout on the disk, word by word: blocks 0 to 6 are the inode's, 7 to 518 named by the words of the block in zone 7, and 519 + 512 j + k by word k of the block that word j of the one in zone 8 names, each word two bytes, low one first |
| `Zones.CreateBlockKeeps` | linux-0.01/fs/inode.c:49-125 | create_block returns what bmap then returns for that block, leaves every other block of every file where and as it was, hands out only zones no file had, zeroed, and on failure part-way leaves a sound tree |
| `Zones.TruncateKeeps` | linux-0.01/fs/truncate.c:5-58 | truncate empties one regular file or directory, size and zones, and no other; the bits set afterwards are exactly those the remaining trees own; another inode it leaves alone |
| `Zones.StoreKeeps` | linux-0.01/fs/file_dev.c:166-211 | data blocks are no pointer blocks: a store into one moves no block of any file |
| `Zones.OwnershipInEveryRun` | linux-0.01/fs/bitmap.c:39-97 | over every run of create_block, truncate and stores on any files, no zone stands at two places and a zone's bit is set if and only if some file owns it |
| `Zones.FreshIsOk` | linux-0.01/fs/bitmap.c:39-97 | a disk without files satisfies the invariant |
| `Files.CreateKeepsBytes` | linux-0.01/fs/inode.c:49-125 | allocating a block changes no byte that any file reads |
| `Files.ByteLayout` | linux-0.01/fs/file_dev.c:118-150 | byte p of a file is byte p mod 1024 of the block _bmap finds for p / 1024, or zero where there is none |
| `Files.StoreSplices` | linux-0.01/fs/file_dev.c:176-196 | writing inside one block is a splice into one flat file and leaves all others |
| `Files.WroteTrans` | linux-0.01/fs/file_dev.c:166-211 | consecutive writes compose to the write of both parts, size growth included |
| `FilesCode.Disk.NewBlock` | linux-0.01/fs/bitmap.c:67-97 | the scan over the map blocks finds and takes the zone the specification names |
| `FilesCode.Disk.FreeBlock` | linux-0.01/fs/bitmap.c:39-65 | clears exactly the zone's bit; its panics are its precondition, which truncate proves for every zone it frees |
| `FilesCode.Disk.BMap` | linux-0.01/fs/inode.c:49-125 | the three cases of _bmap do what the specification says |
| `FilesCode.Disk.FreeInd` | linux-0.01/fs/truncate.c:5-21 | frees the zones an indirect block names and then the block, each once |
| `FilesCode.Disk.FreeDind` | linux-0.01/fs/truncate.c:23-39 | the same for a double-indirect block and everything below it |
| `FilesCode.Disk.Truncate` | linux-0.01/fs/truncate.c:41-58 | the loops leave what the specification says: only this file's bits cleared, its inode empty |
| `FilesCode.Disk.FileWrite` | linux-0.01/fs/file_dev.c:166-211 | for every position and length, O_APPEND included: the file is changed in exactly the bytes written, grows if they pass its end, stops early only when no zone is left, and returns the count or -1 |
| `FilesCode.Disk.FileRead` | linux-0.01/fs/file_dev.c:118-150 | returns the bytes of the flat file from the position on, holes as zeros, and moves the position |
| `FilesCode.Disk.constructor` | linux-0.01/fs/bitmap.c:39-97 | a disk without files, on which the invariant holds |
| `Cipher.OrderSorts` | linux-0.01/kernel/sys.c:288-297 | the exchange sort of the key yields a permutation of the columns that puts the key in order, equal characters or not |
| `Cipher.PassRotates` | linux-0.01/kernel/sys.c:289-295 | one pass, without naming the loop: just the characters smaller than all before them from position i on move, each to the place of the next one, and the last of them to i; the index moves alike; equal characters never change places |
| `Cipher.LastRecordIs` | linux-0.01/kernel/sys.c:289-295 | there always is such a last one, and it is the first of the smallest |
| `Cipher.AscendingKeepsOrder` | linux-0.01/kernel/sys.c:288-297 | the columns stay where they are if and only if the key is in ascending order, equal characters or not |
| `Cipher.ColumnsInOrder` | linux-0.01/kernel/sys.c:279-303 | byte r of column c of the cipher text is byte r of the column the order names in the clear text |
| `Cipher.PlainTransposition` | linux-0.01/kernel/sys.c:279-303 | for a key in ascending order the cipher text is the clear text column by column |
| `Cipher.DecryptEncrypt` | linux-0.01/kernel/sys.c:279-327 | decrypting an encrypted text gives it back, for every text of whole rows and every key |
| `Cipher.EncryptDecrypt` | linux-0.01/kernel/sys.c:279-327 | and encrypting a decrypted one does too |
| `Cipher.EncryptPermutes` | linux-0.01/kernel/sys.c:279-303 | encryption permutes the bytes |
| `CipherCode.Crypto.SortInner` | linux-0.01/kernel/sys.c:289-295 | while characters of the key are exchanged, whole columns follow: the buffer stays the text with its columns in the order the index sort would give |
| `CipherCode.Crypto.SortIndex` | linux-0.01/kernel/sys.c:308-324 | the index sort computes that order |
| `CipherCode.Crypto.Enkriptuj` | linux-0.01/kernel/sys.c:279-303 | the in-place column sort computes Encrypt on the whole rows of a block and leaves the rest |
| `CipherCode.Crypto.Dekriptuj` | linux-0.01/kernel/sys.c:305-327 | the index sort and the last loop compute Decrypt |
| `CryptFiles.CryptFileIs` | linux-0.01/kernel/sys.c:891-903 | the loop over a file crypts every block of the disk once for each of its visits and changes nothing else |
| `CryptFiles.FileRestored` | linux-0.01/kernel/sys.c:861-956 | running the loop one way and then the other with one key gives back the whole disk, for any size and any holes |
| `CryptFiles.EachBlockOnce` | linux-0.01/kernel/sys.c:888-903 | every block of a hole-free file is crypted exactly once if and only if its size is no multiple of 1024 |
| `CryptFiles.BootBlockHit` | linux-0.01/kernel/sys.c:888-903 | the loop crypts block 0 of the device if and only if one of its rounds looks at a hole; for a file without holes, if and only if the size is a multiple of 1024 and there is no block just past the end |
| `CryptFiles.FileEncrypted` | linux-0.01/kernel/sys.c:861-905 | for other sizes, each block of the file becomes its cipher text and every block of other files and every pointer block stays |
| `Keys.AcceptedDivides` | linux-0.01/kernel/sys.c:369-371 | the bit test lets through exactly the lengths up to 512 that divide 1024 |
| `Keys.SetRefuses` | linux-0.01/kernel/sys.c:357-371 | sys_keyset accepts exactly mode 0 or 1 with a length that divides 1024; otherwise it returns -ERANGE or -ENOTPOWOFTWO and changes nothing |
| `Keys.PutKeeps` | linux-0.01/kernel/sys.c:383-409 | setting or renewing a task's key: the table then stands for the old keys with this one replaced, and keeps its invariant |
| `Keys.KeysLast` | linux-0.01/kernel/sys.c:374-442 | a task's key lasts 45 seconds and the global one 120: any tick before leaves it, any from then on takes it away, and the other keys go by their own deadlines |
| `Keys.ClearTakes` | linux-0.01/kernel/sys.c:958-978 | sys_keyclear takes away at once the global key or the task's own and nothing else; -ERANGE for another mode |
| `Keys.TickKeeps` | linux-0.01/kernel/sys.c:415-442 | after a tick exactly the keys whose deadline lies ahead are left, although most ticks look at one cached number only |
| `Keys.TableIsPlainMap` | linux-0.01/kernel/sys.c:357-442 | over every run with time going forward, the slot table with its cached deadline acts as one list of keys, each with its own deadline; slots are never shared and free exactly when no task has them |
| `Keys.RoomMeansFewerThanEight` | linux-0.01/kernel/sys.c:393-402 | a task without a key finds a slot if and only if fewer than eight tasks hold keys |
| `Keys.DecryPicksEncryKey` | linux-0.01/kernel/sys.c:878-886 | decryption picks the key the encryption used if and only if the global key is not a different key with the same hash as the task's own |
| `Keys.HashIs` | linux-0.01/fs/file_dev.c:20-31 | hashString is 37 times the string as a number to the base 37, lowest digit first, modulo 1050737, for characters up to 127, and has that remainder for all |
| `Keys.KeyIsShadowed` | linux-0.01/kernel/sys.c:878-936 | a run from the boot after which a task's files are encrypted with one key and decrypted with another |
| `Keys.ShadowedBlockIsLost` | linux-0.01/kernel/sys.c:878-936 | those two keys do not bring a block back whose first two bytes differ |
| `Keys.OnlyAcceptedKeys` | linux-0.01/kernel/sys.c:366-374 | over every run, every key held has a length that divides 1024 |
| `Keys.EncryptedFileComesBack` | linux-0.01/kernel/sys.c:861-956 | a task whose key is not shadowed, that encrypts a file and decrypts it with the table unchanged, gets the whole disk back |
| `KeysCode.KeyTable.SysKeyset` | linux-0.01/kernel/sys.c:357-413 | does what the specification says, error codes included; the panic on a full table is its precondition |
| `KeysCode.KeyTable.SysKeyclear` | linux-0.01/kernel/sys.c:958-978 | does what the specification says |
| `KeysCode.KeyTable.Funkcija` | linux-0.01/kernel/sys.c:415-442 | does what the specification says |
| `KeysCode.EncryWithInode` | linux-0.01/kernel/sys.c:861-905 | -ENOFILE, -EISDIR or -EKEYNOTFOUND and nothing changed; otherwise the disk becomes CryptFile of it under the task's key before the global one, and the buffers of exactly the blocks looked at are marked dirty if asked for |
| `KeysCode.DecryWithInode` | linux-0.01/kernel/sys.c:907-956 | the same the other way, with the key whose hash marks the file |
| `Scheduler.ScheduleChooses` | linux-0.01/kernel/sched.c:68-105 | the task chosen is the last of the runnable ones with the largest counter, task 0 exactly when all of their 32-bit counters are negative, which is when no other can run as long as no counter is; afterwards no interruptible sleeper has a signal pending |
| `Scheduler.ScheduleTasks` | linux-0.01/kernel/sched.c:75-103 | what schedule does to every other task than task 0: a past alarm becomes a signal, a signal ends an interruptible sleep, and when the counters are used up the new one is half the old and the priority, in 32 bits and in every state; all else stays |
| `Scheduler.PriorityIsTicks` | linux-0.01/kernel/sched.c:99-169 | between two recharges a task that could run all the time, and had used up its counter, is charged exactly as many ticks as its priority |
| `Scheduler.TickEffect` | linux-0.01/kernel/sched.c:159-169 | a tick takes one off the counter of the current task, not below zero, and schedules only from user mode at zero |
| `Scheduler.NiceEffect` | linux-0.01/kernel/sched.c:207-212 | nice takes the increment off the priority where that stays positive, and changes nothing else |
| `Scheduler.RechargeEnds` | linux-0.01/kernel/sched.c:99-103 | a pass that finds only empty counters is followed by one that does not, because priorities are positive, whatever wraps around |
| `Scheduler.ExhaustedMeans` | linux-0.01/kernel/sched.c:99-103 | counters are recharged if and only if some task that can run has just used up its own and none has time left |
| `Scheduler.FreshPidIsFree` | linux-0.01/kernel/fork.c:128-136 | the retry loop ends within one more try than there are live pids, on the first pid after last_pid, wrapping to 1, that no live task has |
| `Scheduler.ForkKeeps` | linux-0.01/kernel/fork.c:61-140 | a fork, successful or not, keeps live pids distinct and moves last_pid to the first free pid, within one more try than there are live ones; the child has that pid, its parent's priority, and that as its counter; no other slot changes |
| `Scheduler.GoodInEveryRun` | linux-0.01/kernel/sched.c:68-212 | over every run of ticks, sleeps, wakings, signals, alarms, nices, forks, exits and waits, live pids are distinct, priorities positive, and the current task is in the table |
| `Scheduler.FairInEveryRun` | linux-0.01/kernel/sched.c:87-104 | as long as no priority passes 2^30, no counter is negative either |
| `Overflow.HalfIsExact` | linux-0.01/kernel/sched.c:99-103 | 2^30 is the exact bound for that: beyond it a sleeper's counter can wrap around, for every larger priority |
| `Overflow.NeverChosen` | linux-0.01/kernel/sched.c:87-105 | for every such priority a run from the boot after which one task can run and schedule runs task 0, each time it is called |
| `Scheduler.CountersBounded` | linux-0.01/kernel/sched.c:99-103 | from the boot on, the counter of a task that has never had a priority above 2^30 is from 0 up and below twice the largest it has had, whoever had the slot before |
| `Scheduler.SlotKeepsTask` | linux-0.01/kernel/fork.c:61-140 | a slot taken before and after a step holds the same task, so that the maximum above is that of one task |
| `Scheduler.NoStarvation` | linux-0.01/kernel/sched.c:87-105 | between one recharge and the next, a task that could run all the time has run if and only if the first one left it some time, which it did unless its counter was negative |
| `Scheduler.NoStarvationWhileFair` | linux-0.01/kernel/sched.c:87-105 | so every task that could run all the time has run, as long as no priority passes 2^30 |
| `SchedulerCode.Kernel.Schedule` | linux-0.01/kernel/sched.c:68-105 | the loops over the task structures do what the specification says, in at most two passes, with 32-bit counters that wrap around |
| `SchedulerCode.Kernel.DoTimer` | linux-0.01/kernel/sched.c:159-169 | does what the specification of a tick says |
| `SchedulerCode.Kernel.TimerInterrupt` | linux-0.01/kernel/system_call.s:167-174 | with jiffies counted up it is the timer step of the runs, and keeps their invariant |
| `SchedulerCode.Kernel.SysNice` | linux-0.01/kernel/sched.c:207-212 | changes the priority only where it stays positive, in 32 bits |
| `SchedulerCode.Kernel.FindEmptyProcess` | linux-0.01/kernel/fork.c:128-140 | leaves that fresh pid in last_pid and returns the first free slot from 1, or -EAGAIN |
| `SchedulerCode.Kernel.CopyProcess` | linux-0.01/kernel/fork.c:61-126 | puts the child the specification describes into the slot, or returns -EAGAIN |
| `SchedulerCode.Kernel.SysFork` | linux-0.01/kernel/fork.c:61-140 | both together are the fork step of the runs, and keep their invariant |
| `SchedulerCode.Kernel.constructor` | linux-0.01/kernel/sched.c:68-105 | the table with task 0 alone, where the runs start |
| `SleepChain.NoLostSleeper` | linux-0.01/kernel/sched.c:114-128 | over all interleavings of sleep_on and wake_up a task sleeps if and only if it is the head of exactly one queue or the saved tmp of exactly one task inside sleep_on |
| `SleepChain.WakeUpFrees` | linux-0.01/kernel/sched.c:151-157 | wake_up wakes the head and leaves every other sleeper of the queue below an awake task |
| `SleepChain.WokenWithinDepth` | linux-0.01/kernel/sched.c:114-128 | whatever else runs, a sleeper d links below an awake task is awake exactly when the task on top of its chain has run d times |
| `SleepChain.EverySleeperHasATop` | linux-0.01/kernel/sched.c:114-157 | above every sleeper stands the head of its queue or an awake task about to pass the wake-up on |
| `SleepChain.OneWakeUpWakesTheChain` | linux-0.01/kernel/sched.c:114-157 | one wake_up, and each woken task running on in turn, wakes the task at depth d in d further steps |
| `SleepCode.Queues.FallAsleep` | linux-0.01/kernel/sched.c:114-125 | the first half of sleep_on makes the step of the model: the old head is saved, the caller becomes head and sleeps |
| `SleepCode.Queues.RunOn` | linux-0.01/kernel/sched.c:126-128 | the second half wakes the saved task |
| `SleepCode.Queues.WakeUp` | linux-0.01/kernel/sched.c:151-157 | wakes the head and empties the queue |
| `CacheSteps.UniqueInEveryRun` | linux-0.01/fs/buffer.c:123-208 | however processes are interleaved at their sleeps, no two queued buffers carry one block, counts are the number of users, a buffer in use keeps its block, and the second check of get_hash_table never fails |
| `CacheSteps.HeldIsKept` | linux-0.01/fs/buffer.c:144-208 | no step of another process reassigns a buffer that is in use or takes it off the queues |
| `CacheRuns.TransparentFromBoot` | linux-0.01/fs/buffer.c:144-223 | from the boot, as long as no block is read, filled or discarded while a dirty buffer of it is in the hands of a process inside sync_dev, an up-to-date buffer holds what was stored last in its block, or what the disk had |
| `CacheSteps.ReadIsFresh` | linux-0.01/fs/buffer.c:171-176 | a block read in is what was stored last if and only if no such buffer holds anything newer than the disk |
| `CacheRuns.StaleReadWithoutTheCondition` | linux-0.01/fs/buffer.c:171-188 | a run from the boot in which a process reads a block as it was before another one's write |
| `CacheRuns.LostFillWithoutTheCondition` | linux-0.01/fs/buffer.c:171-188 | one in which a block that is freed and filled again meanwhile ends with its old contents |
| `CacheRuns.AloneIsCalm` | linux-0.01/fs/buffer.c:144-223 | a run in which nobody else goes on while one is inside sync_dev always meets the condition |
| `BufferLists.RemoveLinked` | linux-0.01/fs/buffer.c:71-87 | taking a head off its hash chain and the free list leaves all lists linked both ways without it |
| `BufferLists.InsertLinked` | linux-0.01/fs/buffer.c:89-104 | putting it back, at the end of the free list and, if it has a device, on top of its chain, leaves all lists linked with it |
| `BufferCache.GetBlkIsARun` | linux-0.01/fs/buffer.c:144-194 | getblk, when it need not sleep, is one of the runs of the step machine, ending with the buffer in the caller's hands |
| `BufferCache.FinishIsStep` | linux-0.01/fs/buffer.c:176-194 | what getblk leaves after sync_dev, with its block or beaten to it, is the last step of the machine |
| `BufferCache.GetBlkHits` | linux-0.01/fs/buffer.c:124-148 | where a buffer has the block, getblk counts one user more and changes nothing else |
| `BufferCache.GetBlkStarves` | linux-0.01/fs/buffer.c:149-162 | where none has it and none is unused, it has changed nothing when it goes to sleep |
| `BufferCache.GetBlkMisses` | linux-0.01/fs/buffer.c:149-194 | else it takes the first unused buffer of the free list, which goes to the end; that has the block now, clean, out of date and with one user; if it was dirty, exactly the dirty buffers of its device have been written out |
| `BufferCache.SyncedMeans` | linux-0.01/fs/buffer.c:52-66 | sync_dev leaves the dirty buffers of one device clean and on the disk, and everything else alone |
| `BufferCache.BReadMeans` | linux-0.01/fs/buffer.c:210-223 | bread adds to getblk just the read into a buffer out of date, or its release where that fails |
| `BufferLists.XorBit` | linux-0.01/fs/buffer.c:68 | the hash exclusive-ors device and block bit by bit |
| `BufferCache.TransparentWithoutSleeping` | linux-0.01/fs/buffer.c:144-223 | as long as calls of getblk run through without sleeping, an up-to-date buffer holds what was stored last in its block or what the disk had, across any evictions |
| `BufferCache.BReadReturns` | linux-0.01/fs/buffer.c:210-223 | from any such state bread returns a buffer with what was stored last in the block, and loses nothing of the others |
| `BufferCode.Cache.FindBuffer` | linux-0.01/fs/buffer.c:106-114 | the walk along the hash chain finds the queued buffer of the block, or that there is none |
| `BufferCode.Cache.RemoveFromQueues` | linux-0.01/fs/buffer.c:71-87 | relinks the neighbours, the table and free_list; the buffers' contents stay |
| `BufferCode.Cache.InsertIntoQueues` | linux-0.01/fs/buffer.c:89-104 | relinks likewise, with the store through a null b_next left out |
| `BufferCode.Cache.SyncDev` | linux-0.01/fs/buffer.c:52-66 | writes out exactly the dirty buffers of the device |
| `BufferCode.Cache.Assign` | linux-0.01/fs/buffer.c:176-194 | after sync_dev: the head gets its block, or loses any when the block is in another buffer by now, and goes back on the lists |
| `BufferCode.Cache.GetBlk` | linux-0.01/fs/buffer.c:144-194 | on the linked lists: the buffer of the block, or the first unused one of the free list, written out if dirty and given the block |
| `BufferCode.Cache.BRead` | linux-0.01/fs/buffer.c:210-223 | and read in if it was not up to date, so that it holds what was stored last; a block that cannot be read leaves its buffer released |
| `BufferCode.Cache.Store` | linux-0.01/fs/file_dev.c:176-196 | a user's store with its dirty mark is what later reads return |
| `BufferCode.Cache.BRelse` | linux-0.01/fs/buffer.c:196-204 | one user less; the panic is its precondition |
| `BufferCode.Cache.constructor` | linux-0.01/fs/buffer.c:225-254 | buffer_init links all heads into the free list, both ways, and empties the hash table |
| `Console.FullScroll` | linux-0.01/kernel/console.c:75-112 | scrolling the whole screen drops the top row and appends a blank one |
| `Console.InsertLinesMoves` | linux-0.01/kernel/console.c:349-357 | n line insertions blank the cursor's row and the next n - 1 and move the rest down by n |
| `Console.DeleteLinesMoves` | linux-0.01/kernel/console.c:369-377 | n line deletions move the rows n below up to the cursor and blank the last n |
| `Console.DeleteUndoesInsert` | linux-0.01/kernel/console.c:349-377 | deleting the lines just inserted gives back all rows but those pushed out |
| `Console.InsertCharsMoves` | linux-0.01/kernel/console.c:339-347 | n character insertions move the rest of the row right by n behind n blanks |
| `Console.DeleteCharsMoves` | linux-0.01/kernel/console.c:359-367 | n character deletions move the rest of the row left by n and fill with blanks |
| `Console.TextAppears` | linux-0.01/kernel/console.c:405-422 | text that fits in the row stands there in the current rendition and nothing else changes |
| `Console.NumberParses` | linux-0.01/kernel/console.c:464-478 | the parameter parser reads back any number below 2^32 written in decimal |
| `Console.CursorAddress` | linux-0.01/kernel/console.c:506-510 | ESC [ row ; column H puts the cursor there, for every row and column of the screen |
| `ConsoleLaws.LineFeed` | linux-0.01/kernel/console.c:150-158 | bytes 10 to 12: above the bottom row of the region only the cursor moves; there every row of the region moves up, the last becomes blank, and the cursor and the other rows stay |
| `ConsoleLaws.CarriageReturn` | linux-0.01/kernel/console.c:421-422 | byte 13 takes the cursor to column 0 and does nothing else |
| `ConsoleLaws.EraseAndBackspace` | linux-0.01/kernel/console.c:423-429 | the erase character blanks the cell before the cursor and goes there, a backspace only goes there |
| `ConsoleLaws.TabStop` | linux-0.01/kernel/console.c:430-440 | a tab goes to the next column that 8 divides, past the last one into the next line |
| `ConsoleLaws.Prints` | linux-0.01/kernel/console.c:405-416 | a printing byte stands at the cursor in the rendition, behind the last column at the start of the next line, and nothing else changes |
| `ConsoleLaws.OtherBytes` | linux-0.01/kernel/console.c:403-441 | no other byte does anything outside sequences, but for ESC, which starts one |
| `ConsoleLaws.AfterEscape` | linux-0.01/kernel/console.c:442-458 | each byte after ESC by its effect: next line, one line down or up with the region moving, the answer, or one of the two tests of the column |
| `ConsoleLaws.ParameterByte` | linux-0.01/kernel/console.c:466-472 | digits extend the parameter, in 32 bits, and a semicolon goes on to the next |
| `ConsoleLaws.UpAndDown` | linux-0.01/kernel/console.c:481-488 | A, B and e move by the parameter, by one for none, and not off the screen |
| `ConsoleLaws.LeftAndRight` | linux-0.01/kernel/console.c:489-496 | C, a and D likewise |
| `ConsoleLaws.LineUpAndDown` | linux-0.01/kernel/console.c:497-504 | E and F likewise, to column 0 |
| `ConsoleLaws.ToColumnOrRow` | linux-0.01/kernel/console.c:477-508 | G, backquote and d go to a column or a row, numbered from 1 |
| `ConsoleLaws.ToPlace` | linux-0.01/kernel/console.c:509-513 | H and f go to both |
| `ConsoleLaws.EraseDisplay` | linux-0.01/kernel/console.c:185-213 | J blanks the cells from the cursor on, before it, or all, and no others |
| `ConsoleLaws.EraseLine` | linux-0.01/kernel/console.c:215-245 | K the same within the row |
| `ConsoleLaws.LinesIn` | linux-0.01/kernel/console.c:349-357 | L inserts lines as often as the parameter says, once for none, row by row |
| `ConsoleLaws.LinesOut` | linux-0.01/kernel/console.c:369-377 | M deletes them likewise |
| `ConsoleLaws.CharsInAndOut` | linux-0.01/kernel/console.c:339-367 | @ and P the same for characters, cell by cell |
| `ConsoleLaws.Rendition` | linux-0.01/kernel/console.c:247-259 | m selects the rendition of the last parameter that names one, and keeps the old one where none does |
| `ConsoleLaws.SetRegion` | linux-0.01/kernel/console.c:535-543 | r sets the region to the rows the parameters number, to the last row of the screen for none, and ignores an empty one |
| `ConsoleLaws.SaveAndRestore` | linux-0.01/kernel/console.c:382-393 | s keeps the cursor and u brings it back there |
| `ConsoleLaws.OtherEnds` | linux-0.01/kernel/console.c:474-550 | any other byte only ends the sequence |
| `ConsoleLaws.LinesStand` | linux-0.01/kernel/console.c:395-422 | after any number of lines of fitting text, each with CR LF, as many of the last ones as there is room for stand on the screen in order, the last right above the cursor |
| `ConsoleCode.Screen.ScrollWindow` | linux-0.01/kernel/console.c:77-114 | moving the window on, or copying it back to the start of screen memory, shows the scrolled grid; cells outside the new window stay |
| `ConsoleCode.Screen.Scrup` | linux-0.01/kernel/console.c:75-129 | scrolls the region of the grid up, by either way |
| `ConsoleCode.Screen.Scrdown` | linux-0.01/kernel/console.c:131-148 | scrolls the region of the grid down |
| `ConsoleCode.Screen.DeleteLine` | linux-0.01/kernel/console.c:326-337 | deletes the cursor's row of the grid, also where that moves the window |
| `ConsoleCode.Screen.InsertChar` | linux-0.01/kernel/console.c:284-296 | shifts the row right within the row |
| `ConsoleCode.Screen.DeleteChar` | linux-0.01/kernel/console.c:311-324 | shifts the row left within the row |
| `ConsoleCode.Screen.CsiJ` | linux-0.01/kernel/console.c:185-213 | erases the part of the grid before, after or around the cursor |
| `ConsoleCode.Screen.CsiK` | linux-0.01/kernel/console.c:215-245 | the same within the row |
| `ConsoleCode.Screen.GotoXY` | linux-0.01/kernel/console.c:56-63 | moves the cursor, or stays where the place is not on the screen |
| `ConsoleCode.Screen.Final` | linux-0.01/kernel/console.c:479-553 | every final byte does to the window what it does to the grid |
| `ConsoleCode.Screen.WriteByte` | linux-0.01/kernel/console.c:401-555 | every byte does, in every state of the parser, but for what the answer to ESC Z echoes; x stays at most 80, y below 25, top below bottom, pos and the window in step; stores lie in the window, or the windows passed through, apart from the copy back |
| `ConsoleCode.Screen.Draw` | linux-0.01/kernel/console.c:401-555 | for every stream of bytes the window shows what the plain grid shows; the echo of answers apart |
| `TerminalCode.Crt.ConWrite` | linux-0.01/kernel/console.c:395-557 | with the write queue, and respond and copy_to_cooked as they call it again: it takes each queued byte once if and only if no answer is echoed while bytes are left; then the screen shows them and the echo, and the line has the answer |
| `TerminalCode.Crt.Respond` | linux-0.01/kernel/console.c:271-283 | puts the answer in the read queue and cooks it |
| `TerminalCode.Crt.CopyToCooked` | linux-0.01/kernel/tty_io.c:129-193 | copy_to_cooked as respond calls it, with con_write as its write function |
| `Terminal.CleanMeans` | linux-0.01/kernel/console.c:400-454 | if answers are echoed, each byte is taken once if and only if nothing follows the first ESC Z that is answered |
| `Terminal.AnswerIsTyped` | linux-0.01/kernel/console.c:271-283 | with room in the read queue the answer to ESC Z is typed there in full |
| `Terminal.EchoShows` | linux-0.01/kernel/console.c:271-283 | an answer is echoed exactly when echo is on, for the settings of the console and a secondary queue with room |
| `Terminal.ReadsPastTheEnd` | linux-0.01/kernel/console.c:400-454 | so for ESC Z and one byte more con_write reads past the end of the queue |
| `Terminal.CleanWithoutEcho` | linux-0.01/kernel/console.c:395-557 | without echo each byte is always taken once, and the screen shows just them |
| `Terminal.CleanWithoutAnswer` | linux-0.01/kernel/console.c:395-557 | and so where nothing is answered |
| `Tty.DataCountsLines` | linux-0.01/kernel/tty_io.c:129-193 | over every run with fixed settings, data is the number of line ends in the secondary queue |
| `Tty.CompleteLinesStay` | linux-0.01/kernel/tty_io.c:145-158 | whatever is typed, erasing never reaches back into a line that has been ended |
| `Tty.EraseUndoesTyping` | linux-0.01/kernel/tty_io.c:129-193 | a text followed by k erase characters leaves what typing the text without its last k bytes leaves |
| `Tty.EchoIsKept` | linux-0.01/include/linux/tty.h:33-34 | output that waits in the write queue and the echo of a byte both reach the screen if and only if the queue has room for the echo |
| `Tty.CookEmits` | linux-0.01/kernel/tty_io.c:129-193 | with room for two bytes nothing is lost whatever is cooked |
| `TtyLaws.PrintingByte` | linux-0.01/kernel/tty_io.c:175-190 | a printing byte that is not special joins the line, and is echoed as itself behind the output that waits; nothing else changes |
| `TtyLaws.NewlineByte` | linux-0.01/kernel/tty_io.c:175-190 | a newline is counted and echoed as newline and carriage return |
| `TtyLaws.ControlByte` | linux-0.01/kernel/tty_io.c:177-190 | any other control byte is echoed as ^ and the byte 64 up with ECHOCTL, and not at all without |
| `TtyLaws.EraseByte` | linux-0.01/kernel/tty_io.c:146-159 | the erase character takes back the last byte of an unended line, and echoes one byte 127, two for a control byte |
| `TtyLaws.StopAndStart` | linux-0.01/kernel/tty_io.c:160-167 | the stop and start characters set and clear the flag and do nothing else |
| `TtyLaws.Interrupt` | linux-0.01/kernel/tty_io.c:169-174 | the interrupt character sends SIGINT, and joins no line, exactly when ISIG is not set: the code tests it the wrong way round |
| `TtyLaws.MappingIs` | linux-0.01/kernel/tty_io.c:135-144 | ICRNL, INLCR and IUCLC, each by what it makes of which byte |
| `TtyLaws.ReturnIgnored` | linux-0.01/kernel/tty_io.c:135-140 | IGNCR drops carriage returns where ICRNL does not turn them into newlines |
| `TtyLaws.TextIsEchoed` | linux-0.01/kernel/tty_io.c:129-193 | a typed text of printing bytes is exactly what joins the line and exactly what is echoed, whatever follows it |
| `TtyLaws.LineIsEchoed` | linux-0.01/kernel/tty_io.c:129-193 | and a line with its newline likewise, with a carriage return more in the echo |
| `TtyLaws.TypedTextStands` | linux-0.01/kernel/tty_io.c:129-193 | at the console, typed text that fits in the row stands on the screen at the cursor, and nothing else of the screen or the line changes |
| `TtyLaws.TypedLineStands` | linux-0.01/kernel/tty_io.c:129-193 | and a typed line stands in its row, with the cursor at the start of the next, the rows moved up at the bottom |
| `Tty.ReadConserves` | linux-0.01/kernel/tty_io.c:226-237 | what the dequeue loop delivers is the front of the queue, without the end of file that stopped it; the rest stays |
| `Tty.OneLineOnlyIfAsked` | linux-0.01/kernel/tty_io.c:226-237 | a canonical read returns at most one line if and only if what is asked for, or what is there, ends with the first one |
| `Tty.ReadDelivers` | linux-0.01/kernel/tty_io.c:226-237 | the loop, byte by byte, takes and delivers just that and counts the line ends down |
| `Tty.LowerCaseFails` | linux-0.01/include/ctype.h:31 | the lower-case mapping of input is right if and only if the byte is no capital |
| `Tty.OnlyNewlinesExpand` | linux-0.01/kernel/tty_io.c:256-290 | with OPOST and ONLCR alone each newline is sent as carriage return and newline, everything else as it is |
| `TtyLaws.RawOutput` | linux-0.01/kernel/tty_io.c:268-286 | without OPOST what is sent is what is written |
| `TtyLaws.ByteSent` | linux-0.01/kernel/tty_io.c:270-285 | with it, what is sent for each byte under OCRNL, ONLRET, ONLCR and OLCUC |
| `TtyLaws.SentConcat` | linux-0.01/kernel/tty_io.c:264-290 | and a text is sent byte by byte, however it is cut |
| `Tty.CollapseCrLf` | linux-0.01/kernel/tty_io.c:275-279 | that expansion can be undone, for texts with carriage returns of their own too |
| `TtyCode.Queue.PutCh` | linux-0.01/include/linux/tty.h:33-34 | appends to the ring, and empties it when it was full |
| `TtyCode.Queue.GetCh` | linux-0.01/include/linux/tty.h:31-32 | takes the oldest byte off the ring |
| `TtyCode.TtyStruct.CopyToCooked` | linux-0.01/kernel/tty_io.c:129-193 | does what the specification of the line discipline says, whatever waits in the write queue; no unread byte is overwritten |
| `TtyCode.TtyStruct.Dequeue` | linux-0.01/kernel/tty_io.c:225-237 | does what the specification of the dequeue loop says |
| `TtyCode.TtyStruct.TtyWrite` | linux-0.01/kernel/tty_io.c:256-292 | whatever the device takes meanwhile, and also where the queue fills up between carriage return and newline, what is sent is exactly the mapped input |
| `ExecArgs.TablesReadBack` | linux-0.01/fs/exec.c:60-84 | a program that follows the tables finds exactly the argument and environment strings, in order |
| `ExecArgs.LongMeans` | linux-0.01/fs/exec.c:60-84 | the words of the tables are little-endian |
| `ExecArgs.EnoughMeans` | linux-0.01/fs/exec.c:119-126 | the condition below: less than 128 kB, and a page for every 4 kB begun |
| `ExecArgs.CopyBothMeans` | linux-0.01/fs/exec.c:419-427 | the two calls of copy_strings end above 0 if and only if the strings take less than 128 kB and there are pages for them; below that size they run outside page if and only if the environment finds too few pages and there are arguments |
| `ExecCode.Exec.GetPages` | linux-0.01/fs/exec.c:121-126 | pages are taken for the bytes down to the new end, and it fails exactly when there are too few; none for a string that reaches below 0 |
| `ExecCode.Exec.CopyDown` | linux-0.01/fs/exec.c:127-133 | every byte goes to a page that is there; a string that reaches below 0 ends in the panic, or outside page when it starts in the lowest page |
| `ExecCode.Exec.CopyStrings` | linux-0.01/fs/exec.c:106-136 | the strings end up packed in order, nothing above them touched; every way of ending is that of the specification, with p as 32 bits |
| `ExecCode.CreateTables` | linux-0.01/fs/exec.c:60-84 | writes count and pointers below the strings, which it leaves as they were, at the multiple of 4 that leaves just room for them |
| `ExecCode.Carry` | linux-0.01/fs/exec.c:419-451 | from both lists to the new stack pointer: it succeeds exactly when the strings take less than 128 kB and there are pages; the strings then end at the top of the 64 MB with the tables right below, and the program finds its arguments and its environment; other failures of lists below that size are reported, but for that one |

## Left out

- Disk driver, ports, interrupt entry, boot code, keyboard tables, floating point, segment descriptors, namei, permissions,
  stat, ioctl, the library and the programs in apps: hardware access, wrappers and easy members.
- kernel/hd.c under interrupts: a block transfer is one step and does not change a block it writes; only BRead can fail. A
  store made while its buffer is being written, whose dirty mark the interrupt then clears, is no run of CacheSteps.
- interruptible_sleep_on: it can put a task back to sleep with no remaining holder; the chain is that of sleep_on.
- The list of encrypted files (izbrisiIzFajla, upisiUFajl) and encryption of whole directories: deletion is by substring.
- Key strings are sequences: the 16-byte buffers of sys.c that longer keys overrun are not part of this model.
- KeysCode.EncryWithInode and DecryWithInode say which buffers are marked dirty, but not that a change to one that is not, as
  from file_read, can be lost: the blocks are what the cache shows, and no buffer is reused under them.
- Physical memory is the 2048 frames of the 8 MB configuration; ranges of linear addresses are whole directory entries.
- MemoryRuns.IsolationInEveryRun: does not claim the contents of frames below LOW_MEM, which the kernel changes under every
  task that maps them after the first fork; the kernel's two page tables are not written after the boot.
- do_no_page when its second allocation fails keeps the first page as held by the kernel: the code loses it.
- The zone model has one device, every block can be read, and blocks are a plain array: the buffer cache is not under it.
  free_block of a block whose buffer is held, which leaves its bit set, does not occur.
- The users of CacheSteps each handle one buffer at a time; a kernel process that holds several counts as several. Buffer
  counts do not wrap at 256. A scan that has slept may go on to any unused buffer, which includes all the code can reach.
- BufferCode.Cache.GetBlk, BRead and BRelse: do not model b_lock and the wake_up of waiters, because without sleeping no lock is
  ever seen set and nobody waits.
- Time and jiffies do not overflow, and ticks do not fall inside a system call on the key table. Counters and priorities wrap
  around at 32 bits, as compiled; in C that is undefined.
- SchedulerCode.Kernel.CopyProcess: does not count up open files and directories, nor set registers and times.
- SleepCode.Queues.FallAsleep and RunOn are one sleep_on, cut where it calls schedule, because it stops there.
- ESC 7 and ESC 8 as cursor save and restore: the code tests the cursor's column for the characters 7 and 8, which
  ConsoleLaws.AfterEscape states as it is.
- ConsoleCode.Screen.Draw: does not state which cells outside the final window were written; WriteByte does, byte by byte.
- TerminalCode.Crt.ConWrite: does not go on where con_write reads past the end of the queue: it returns false there. Bytes 219
  that wait to be cooked, which echo as ^ and ESC with ECHOCTL, and a keyboard interrupt inside con_write are left out.
- Echo goes to a device that empties the write queue at once, as the console does.
- VMIN, VTIME, signals and job control in tty_read and tty_write; tolower of negative characters, which reads outside its table.
- TtyCode.TtyStruct.TtyWrite: does not model other terminals or writers: cr_flag is a field of each terminal here and one static
  of the source, so a writer that sleeps between carriage return and newline can hand its flag to another one.
- ExecCode.Exec.CopyStrings: does not say what happens beyond `page`, because what stands there is not known to the code. Strings
  lie in the 64 MB of a task. That do_execve frees the pages when it returns -1 is left out.
- ELF loading and read_file_block.
