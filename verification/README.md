# A verified model of the kernel's hard parts

This project models, in Dafny, six parts of the kernel and proves what they promise. Each module names the source
files it follows; a method carries the name of the C function it models and works on the same state: arrays where the
code has arrays, objects with fields where it has structures. Interrupt gates clear the interrupt flag, so a system
call or a timer tick is one step.

**Heap** (`PowersOfTwo`, `Bitmap`, `LittleEndian`, `Splices`, `HeapLayout`, `Paging`, `Heap`). The heap hands out
power-of-two runs of 4 KB pages, first fit. Three representations of what is in use, the bitmap of 32-bit words, the
present bits of the page table and the set of live objects, agree after every call, along with the header word in front
of each object and the two counters. The bitmap's shifted masks are proved to be set operations, the run found is the
lowest, and `free` recovers from pointer and header alone the region that was given out. Walking the page table as the
processor does takes every byte of every object to a byte of physical memory of its own.

**Processes** (`ProcessTable`, `Scheduling`, `Reloading`, `Kernel`). A transition relation over six slots, its inductive
invariant (each session is a chain of processes of which only the top can run), whole runs from start-up, and the
methods of the kernel, each proved to perform a step of the relation. What the code relies on without checking follows:
the scheduler always finds a next process, execute always finds a slot after its check, a halting child has a waiting
parent. Waiting is bounded, and a run from start-up meets the bound. A root shell that has to be loaded, or halts, is
loaded by one of the next four ticks whatever else halts. After every switch each access of the process to its window
goes, by the walk of the processor, to its own frame.

**Files** (`Ext2Files`, `Ext2`). Reading and writing a byte range block by block, growing a file through the bitmap
allocator, and that no other live file is touched, because a new block was free and all others are foreign.

**Directories** (`DirectoryBlock`, `VfsDentry`, `Ext2Dir`). A directory block is 1024 bytes tiled by records that link
to each other by length. Insertion splits the slack of a record, removal merges records; both act on the directory as a
map from names to inodes, and lookup by name, lookup by index and listing agree with that map, as far as the directory
entry they fill can hold a name.

**AES-128** (`GaloisField`, `MixMatrix`, `ColumnCode`, `SubstitutionTables`, `Cipher`, `KeySchedule`, `Aes`,
`FileCrypt`). The cipher of FIPS 197 on values, the routines of the kernel in place, the two ways of mixing columns,
the key schedule, and the two system calls that encrypt and decrypt a file in place. Cipher and key schedule are also
stated as the equations of the standard on single bytes.

**Signals** (`List`, `Signals`, `SignalFrame`). The intrusive circular list, the queue of pending signals on it, the
masks around a delivery, and the stack frame of a handler with the code injected into it. A pending signal is an object
of the heap above: any run of requests and removals hands signals out in order and gives their objects back to `free`.
Every mask is clear whenever a signal is taken, so none is lost to one. Returning from a handler restores the
interrupted registers, to any depth of signals interrupting handlers and the injected code itself, exactly as long as
the stack check of `do_sys` lets the injected system calls through. Code that depends on its registers and its stack
alone does not see its signals.

## Results that are not what the code or its comments say

- The limit of 32 pages for an object (`src/include/mem.h:13`) is compared with the size without the header and
  rounded down: an object may take 64 pages. `HeapLayout.PageLimit` says exactly when the limit is kept.
- Encrypting and decrypting a file restores it exactly when its size is a multiple of 16 or its last byte is not zero
  (`FileCrypt.RestoredWhen`, `FileCrypt.EncryptThenDecrypt`).
- Removing a name whose record is alone in its block reports success and leaves the name (`Ext2Dir.Directory.Remove`
  says exactly when; `Ext2Dir.SoleRecordStays` calls it on such a directory).
- Inserting a name always reports success, but in a directory without slack and without an open end the name goes into
  a block that the directory's inode on the disk does not name (`src/ext2.c:1099-1109`, `src/ext2.c:1150-1155`): it is
  in the directory afterwards if and only if there was room (`Ext2Dir.Directory.Insert`; `Ext2Dir.FullDirectory` is an
  input that fails).
- Returning from a handler is a system call of code on the user stack, and `do_sys` checks the stack pointer of it
  (`src/syscall.c:37`, `src/include/system.h:66-72`), which a delivery on the way back from an interrupt does not. When
  that call is reached the registers come back if and only if `USER_STACK_TOP < esp - 76 < USER_VIRT_BOT - 4` for the
  interrupted `esp` (`SignalFrame.ReturnRestores`); otherwise it is refused, and with nothing else pending the process
  ends (`SignalFrame.SigreturnCall`). Signals may come before each instruction of the injected code, with their own
  frames below it: a run is refused exactly when some signal of it, wherever it came, interrupted the process outside
  these bounds (`SignalFrame.RefusedWhen`), and signals whose handlers only return all come back exactly when there is
  room for the lowest of their system calls (`SignalFrame.SignalsReturn`, `SignalFrame.NestReturns`).
  `SignalFrame.ReturnRefused` and `SignalFrame.RefusedOnTheWay` are inputs that fail.
- Names of records go through a field of 48 bytes with the inode behind it, and neither the copy into it nor the copy
  out of it looks at that (`src/include/vfs.h:12`, `src/ext2.c:973`, `src/ext2.c:706`): n bytes of a name come back
  right for every inode if and only if n is at most 48 (`VfsDentry.NameWholeWhen`), `Ext2Dir.LongNameDamaged` is an
  input that fails, and from 88 bytes on the copy leaves the dentry (`VfsDentry.FillVfsDentry`).
- `find_free_region` finds out that nothing is free only when the number of bits is a multiple of the region size;
  otherwise it gives out the region behind the bits, whoever has it (`Bitmap.FindFreeRegion`, `Bitmap.TakenTwice`). The
  heap and the file system call it with multiples.

## Reading the model

Words are natural numbers below 2^32; C's bitwise operators on them are recursions over binary digits, proved bit by
bit to be those operators. Bytes of files and of the cipher are `bv8`, and bytes of the heap, of directory blocks and
of the user stack are numbers below 256, because those are put together to integers. Ghost parameters and results tell
a proof where something is; they do not influence what is computed. `Valid()` of a class ties its ghost fields, the
live objects, the files, the names or the queue, to the arrays the code works on.

`Ext2.FileSystem` keeps the two bitmap blocks and the inode table as arrays beside the disk instead of inside it; that
file data never reaches them on the disk is part of the contract of `FileWrite`, which keeps every marked block that is
not the file's own. `Ext2Dir.Directory` holds the data blocks of one directory in the order of its inode. Copying the
next record's name over the first record reads the name before it writes it; the code copies forward, to lower
addresses, which comes to the same.

## Model

| member | source | states |
|---|---|---|
| Bitmap.OperatorBits | src/bitmap.c:21-50 | bit k of the results for bitwise or, and, and-not is the boolean combination of the bits k: the digit recursions used for C's operators are those operators |
| Bitmap.MaskBit | src/bitmap.c:153-155 | bit k of the mask built by shifting is one exactly for `offset <= k < offset + n` |
| Bitmap.MaskCoversRegion | src/bitmap.c:143-155 | the word index, word count and mask that `_reg_op` derives from an order cover exactly the positions `[pos, pos + 2^order)`, for orders below and above a word |
| Bitmap.WordsToBits | src/bitmap.c:160-178 | doing the operation on each covered word adds or removes exactly the region in the set of positions |
| Bitmap.TestWords | src/bitmap.c:160-166 | no covered word meets the mask if and only if no position of the region is set |
| Bitmap.TestLoop | src/bitmap.c:160-166 | the test loop answers 1 iff every covered word is clear under the mask |
| Bitmap.UpdateLoop | src/bitmap.c:169-178 | exactly the covered words change, and by the mask alone |
| Bitmap.DoRegOp | src/bitmap.c:142-185 | on aligned positions: tests, sets or clears exactly the region, as a change of the set of positions |
| Bitmap.FindFreeRegion | src/bitmap.c:197-207 | the lowest free region that begins among the bits to search, marked and nothing else; when there is none, `-ENOMEM` without a change if and only if the number of bits is a multiple of the region size, and otherwise the region behind the bits, free or not |
| Bitmap.TakenTwice | src/bitmap.c:203-206 | a bitmap of which a region taken already is given out again |
| Bitmap.ReleaseRegion | src/bitmap.c:219-221 | the region, and nothing else, leaves the set |
| Bitmap.AllocateRegion | src/bitmap.c:233-238 | `-EBUSY` without a change iff some position of the region is set; otherwise the region joins the set |
| Bitmap.SetBit | src/bitmap.c:21-23 | the set gains exactly that position |
| Bitmap.ClearBit | src/bitmap.c:34-36 | the set loses exactly that position |
| Bitmap.QueryBit | src/bitmap.c:47-50 | 1 iff the position is in the set |
| HeapLayout.SingleBit | src/include/bitops.h:12-51 | `ffs(w) <= fls(w)`, with equality exactly for powers of two, which is how the order function tells them |
| HeapLayout.OrderIsLeast | src/mem.c:29-34 | the order is that of the least power of two of pages covering the size, which is less than twice the pages needed; -1 exactly for size 0 |
| HeapLayout.PagesInBits | src/mem.c:75-84 | the pages of a live object are marked in the bitmap |
| HeapLayout.LayoutAdd | src/mem.c:112-127 | placing an object in a free aligned region keeps all objects placed, apart, and the owners of exactly the set pages |
| HeapLayout.LayoutRemove | src/mem.c:137-143 | taking an object and its region away keeps the same |
| HeapLayout.ObjectsApart | src/mem.c:75-143 | of two live objects one ends before the other's region begins |
| HeapLayout.OneOwner | src/mem.c:75-143 | a page is marked iff it lies in the region of a live object, and then of exactly one |
| HeapLayout.PagesAreConserved | src/mem.c:75-102 | the number of set pages is the sum of the region sizes of the live objects |
| HeapLayout.PageLimit | src/mem.c:113-114 | an accepted object never takes more than 64 pages, and keeps the documented limit of 32 exactly when its size leaves room for the header in 32 pages |
| HeapLayout.PageLimitPassed | src/mem.c:113-114 | a size of 32 whole pages is accepted and takes 64: the documented limit does not hold |
| Paging.SetVirtual4kbHeap | src/paging.c:109-114 | the entry that the processor takes for the address is the frame with present, write and user flag, and no other changes |
| Paging.SmallPageIsWalked | src/paging.c:109-114 | through such an entry every access reaches the frame, of users and kernel, to read and to write |
| Paging.LargePageIsWalked | src/paging.c:37-42 | the directory entry of a large page is walked to the 4 MB page and not to a page table, by every access |
| Paging.FreeVirtual4kbHeap | src/paging.c:126-130 | of the entry that the processor takes for the address only the present flag goes, and no other changes |
| Paging.ClearedFaults | src/paging.c:126-130 | behind an entry without the present flag every access faults |
| Heap.AllocIdxOfPointer | src/include/mem.h:81-84 | the page index recovered from a data pointer is the one the pointer was made from |
| Heap.OthersUntouched | src/mem.c:112-127 | overwriting bytes inside the pages of one object changes neither header nor data of another |
| Heap.AddObject | src/mem.c:112-127 | installing a header in a free region makes an object of it and leaves every other stored |
| Heap.WriteObject | src/mem.c:161-166 | a store inside one object's data changes that object there and no other |
| Heap.RemoveObject | src/mem.c:137-143 | the other objects stay stored when one is freed |
| Heap.MapRegion | src/mem.c:45-50 | after mapping a region the present entries are those of the enlarged set, entry p pointing to frame 0x2000000 + 0x1000 p |
| Heap.UnmapRegion | src/mem.c:61-65 | after unmapping, those of the reduced set |
| Heap.RegionCount | src/mem.c:75-102 | marking a free region adds `2^order` to the number of set pages, clearing it takes as many away |
| Heap.KernelHeap.constructor | src/mem.c:215-219 | an empty heap: no page set, none present, counters 0 |
| Heap.KernelHeap.CreateHeapPages | src/mem.c:45-50 | exactly the entries of the run change, each to its own frame with its flags |
| Heap.KernelHeap.DestroyHeapPages | src/mem.c:61-65 | exactly the pages of the run stop being present |
| Heap.KernelHeap.AllocRequestPages | src/mem.c:75-84 | first fit for the order of the size, marked, mapped and counted; refused iff nothing fits, without a change |
| Heap.KernelHeap.FreeRequestPages | src/mem.c:95-102 | bitmap, page table and counters give up exactly the region the size stands for |
| Heap.KernelHeap.DoAlloc | src/mem.c:112-127 | NULL, with nothing changed, iff the size is 0, `size / 4096` exceeds 32 or no aligned run is free; otherwise a new object of that size at the lowest such run, all others unchanged |
| Heap.KernelHeap.Malloc | src/mem.c:151-153 | the same for `malloc` |
| Heap.KernelHeap.FramesDiffer | src/include/mem.h:34-35 | two set pages are two different frames of the 4 MB at 0x2000000 |
| Heap.KernelHeap.ByteOfObject | src/include/mem.h:34-35 | byte k of an object is in memory at its pointer plus k, and the page table takes every access there to its place in the heap's frames |
| Heap.KernelHeap.BytesApart | src/include/mem.h:34-35 | two bytes of live objects at different places are different bytes of physical memory |
| Heap.KernelHeap.Calloc | src/mem.c:161-166 | the same, and the data bytes are zero |
| Heap.KernelHeap.StoreData | src/mem.c:161-183 | storing into an object changes that object's bytes only and keeps the heap's invariant |
| Heap.KernelHeap.MallocInfo | src/mem.c:202-205 | the header word of a live object is its total size |
| Heap.KernelHeap.Free | src/mem.c:137-143 | exactly the object goes, with exactly the pages it was given, recovered from pointer and header alone; nothing happens for NULL |
| Heap.KernelHeap.Realloc | src/mem.c:175-183 | on success the first `min(old, new)` bytes are kept and the old object is gone; on failure the old object stays as it was; no other object changes |
| Heap.KernelHeap.CopyObject | src/mem.c:175-183 | the copy of `realloc`: the new object agrees with the old as far as both go |
| Heap.MovedTo | src/mem.c:175-183 | the live objects along `realloc`, as a map |
| Heap.AllocThenFree | src/mem.c:112-143 | allocating any size and freeing at once restores live objects, bitmap, present bits and both counters |
| ProcessTable.NextPidUnique | src/proc.c:207-216 | the next pid with a status, counted round, is unique |
| ProcessTable.InitInv | src/terminal.c:116-143 | the state after start-up satisfies the invariant |
| ProcessTable.TickKeepsInv | src/sched.c:62-143 | every timer tick keeps the invariant |
| ProcessTable.ExecKeepsInv | src/syscall.c:190-279 | every successful execute keeps it: the child goes on top of its session |
| ProcessTable.HaltKeepsInv | src/proc.c:317-359 | every halt keeps it: the parent, which was IDLE, is on top again |
| ProcessTable.InvKept | src/sched.c:62-143 | every step of any kind keeps the invariant |
| ProcessTable.RunnableIsTop | src/sched.c:62-143 | a process that can run is the top of its session |
| ProcessTable.PendingIsRoot | src/sched.c:62-121 | a PENDING process is a root shell |
| ProcessTable.SomeoneWaits | src/sched.c:123-126 | besides the current process some process is DAEMON or PENDING: the search whose result is not checked finds one |
| ProcessTable.OthersWait | src/sched.c:123-126 | the tops of the two other sessions wait |
| Scheduling.ReachableInv | src/sched.c:62-143 | by induction over any run from start-up, the invariant holds in its last state |
| Scheduling.OneRunnablePerSession | src/proc.c:227-261 | each session has exactly one process that is ACTIVE, DAEMON or PENDING |
| Scheduling.AncestorsWait | src/proc.c:317-359 | the ancestors of a live process are all IDLE, up to the root shell of its session, whose parent is `NUM_PROC` |
| Scheduling.RootsStay | src/proc.c:227-261 | pids 0 to 2 are never given up, and only the current pid may be ACTIVE |
| Scheduling.UncheckedStepsAreSafe | src/syscall.c:190-242 | `do_sched` never picks pid `NUM_PROC`, `child_pcb_init` never returns NULL after the check in execute, a halting child has an IDLE parent |
| Scheduling.TickLowersRank | src/sched.c:123-143 | a tick that passes a waiting process over strictly lowers its cyclic distance to the other waiting process |
| Scheduling.StepKeepsRank | src/syscall.c:190-242 | executes and child halts of the running process leave that distance alone |
| Scheduling.PassedOver | src/sched.c:123-143 | while a process is passed over, its rank bounds the number of ticks |
| Scheduling.BoundedWaiting | src/sched.c:123-143 | in any run with no PENDING process and no root halt a waiting process is current within `NUM_PROC - 1` ticks, whatever is executed and halted in between |
| Scheduling.BoundIsMet | src/sched.c:123-143 | a run from start-up that reaches a state with every shell loaded, from which four ticks pass a waiting process over: the bound is the best possible |
| Scheduling.TickLoadsOne | src/sched.c:95-121 | each tick that finds PENDING shells loads one: their number falls by one |
| Reloading.TickLoads | src/sched.c:95-121 | a tick loads a given PENDING root or lowers its rank |
| Reloading.StepsKeep | src/syscall.c:190-242 | executes, child halts and the halts of other roots leave that rank alone |
| Reloading.PassedByTicks | src/sched.c:95-121 | while a PENDING root is not loaded its rank, at most 3, bounds the number of ticks |
| Reloading.PendingIsLoaded | src/sched.c:95-121 | a PENDING root is current and ACTIVE after one of the next four ticks, whatever is executed and halted meanwhile, roots included |
| Reloading.HaltedRootIsLoaded | src/proc.c:317-332 | a root shell that halts is PENDING and loaded again by one of the next four ticks |
| Kernel.MaskFindsPcb | src/proc.c:65-77 | from anywhere on a process's kernel stack the mask gives that process's control block |
| Kernel.StacksApart | src/proc.c:65-77 | the kernel stacks are 8 KB each, disjoint, each behind its control block, from 8 MB down |
| Kernel.WindowShowsFrame | src/paging.c:37-42 | with the window on process pid the processor takes every access at every address of the window to the same offset behind 8 MB + 4 MB pid |
| Kernel.ShownRuns | src/paging.c:37-42 | directory entry 32 is then frame, page-size, user, write and present flag, and nothing else |
| Kernel.FramesApart | src/proc.c:53-55 | frames of different processes do not meet, nor the kernel page, nor a heap frame |
| Kernel.CountBounds | src/proc.c:190-196 | the count is 0 iff no process has the status and total iff all have |
| Kernel.CountIsCard | src/proc.c:190-196 | the count is the number of processes with the status |
| Kernel.TickMeans | src/sched.c:62-143 | a tick in arithmetic: the nearest PENDING process counted up round, else the nearest DAEMON process, and what becomes of each status |
| Kernel.ExecMeans | src/syscall.c:190-279 | an execute in full: which slot, which parent, which session, which status, or what failure leaves |
| Kernel.HaltMeans | src/proc.c:317-359 | a halt in full, of a root and of a child |
| Kernel.Machine.constructor | src/terminal.c:154-185 | the start-up state, in the invariant, with shell 0 in its address space and on its stack |
| Kernel.Machine.StartupEnvirInit | src/terminal.c:116-143 | shells in slots 0 to 2, the first ACTIVE, the others PENDING, the rest INACTIVE |
| Kernel.Machine.MapVirtual4mb | src/paging.c:37-42 | one directory entry changes: the 4 MB frame with its four flags |
| Kernel.Machine.SwitchTo | src/sched.c:95-143 | the process runs with its own kernel stack, and every access to the window reaches its own frame; statuses are untouched |
| Kernel.Machine.QueryProcStatus | src/proc.c:190-196 | the number of processes with a status, as the size of their set |
| Kernel.Machine.GetNextPid | src/proc.c:207-216 | the next pid round with that status, `NUM_PROC` iff no other has it |
| Kernel.Machine.Choose | src/sched.c:95-143 | the searches of `do_sched` find a process, PENDING before DAEMON |
| Kernel.Machine.ChildPcbInit | src/proc.c:227-261 | without a parent slot 0; otherwise the lowest INACTIVE slot becomes an ACTIVE child of the parent in its session; NULL iff there is none |
| Kernel.Machine.DoSched | src/sched.c:62-143 | a tick, stated as a step of the relation and in arithmetic; the process that is current then runs with its own stack and its own frame behind every address of the window |
| Kernel.Machine.SysExecute | src/syscall.c:190-279 | 0 iff there is another free slot and the command parses, is found and is executable: then the lowest free slot is the child of the caller in its session, current, and runs with its own stack and frame; else -1 and what each failure leaves |
| Kernel.Machine.KillCurrent | src/proc.c:317-359 | a root becomes PENDING; a child goes, and its parent is ACTIVE, current and runs with its own stack and frame |
| Kernel.RootsOrChildren | src/proc.c:317-332 | the current process is a root or has a parent in the table |
| GaloisField.XtimeLinear | src/include/aes.h:50-60 | multiplication by x distributes over addition (section 4.2.1 of FIPS 197) |
| GaloisField.MulLinear | src/include/aes.h:67-73 | multiplication in GF(2^8) distributes over addition |
| GaloisField.Multipliers | src/include/aes.h:100-107 | the products by 1, 2, 3, 9, 11, 13 and 14 as sums of powers of x |
| GaloisField.MacrosAreXtime | src/include/aes.h:50-60 | for every int, whatever high bits it has, storing `GF_HELPER` or `XTIME` in a byte gives the product by x of the stored int |
| GaloisField.GfMulIsMul | src/include/aes.h:67-73 | `gf_mul` is multiplication by the five low terms of its second argument, hence multiplication for every y below 32 |
| MixMatrix.InverseAfter | src/include/aes.h:76-119 | the inverse matrix of section 5.3.3 undoes the matrix of section 5.1.3 on every column |
| MixMatrix.InverseBefore | src/include/aes.h:76-119 | and the other way round |
| MixMatrix.RowOfProduct | src/include/aes.h:76-119 | applying one matrix of multipliers after another is applying their product |
| ColumnCode.RowStores | src/include/aes.h:128-141 | the nested int arithmetic of a MixColumns row, truncated on store, is its byte arithmetic |
| ColumnCode.FactorStores | src/include/aes.h:148-168 | the doubly nested macro of the fast inverse, wider than a byte inside, stores the product by x squared |
| ColumnCode.MixIsMatrix | src/include/aes.h:84-141 | both versions of `mix_columns` compute the matrix of section 5.1.3 |
| ColumnCode.FastInvIsMatrix | src/include/aes.h:148-168 | the fast `inv_mix_columns` computes the matrix of section 5.3.3 |
| ColumnCode.TableFreeInvIsMatrix | src/include/aes.h:108-119 | so does the table-free one |
| SubstitutionTables.InvSboxAfter | src/aes.c:13-47 | the inverse table undoes the table on every byte |
| SubstitutionTables.InvSboxBefore | src/aes.c:13-47 | and the table undoes the inverse table |
| SubstitutionTables.SboxIsFips | src/aes.c:13-29 | every entry of the table is the affine map of section 5.1.1 after the inverse in the field |
| Cipher.ShiftRowsInverse | src/include/aes.h:194-239 | the two row shifts undo each other |
| Cipher.MixColumnsInverse | src/include/aes.h:84-168 | the two column transformations undo each other on every state |
| Cipher.BackwardAfterForward | src/aes.c:148-220 | n rounds backward undo n rounds forward, by induction over rounds run in opposite orders |
| Cipher.ForwardAfterBackward | src/aes.c:148-220 | and the other way round |
| Cipher.DecryptAfterEncrypt | src/aes.c:148-220 | decryption undoes encryption for every expanded key and every block |
| Cipher.EncryptAfterDecrypt | src/aes.c:148-220 | encryption undoes decryption |
| KeySchedule.DeterminedBackwards | src/aes.c:111-140 | two keys whose schedules agree in four consecutive words agree in every word before them |
| KeySchedule.LastRoundKeyDeterminesKey | src/aes.c:111-140 | two keys whose last sixteen schedule bytes agree are equal |
| KeySchedule.FirstRoundKeyIsKey | src/aes.c:115-121 | the first round key is the key |
| KeySchedule.KeyExpansionIsFips | src/aes.c:111-140 | byte by byte: byte r of word i is that of word i - 4 added to that of word i - 1, or for every fourth word to the substitute of the next byte round, with a power of x in the first |
| KeySchedule.AppendixA1 | src/aes.c:111-140 | the key of appendix A.1 of FIPS 197 and the words it expands to |
| Aes.DoSubBytes | src/aes.c:72-76 | in place: SubBytes of the old state |
| Aes.DoInvSubBytes | src/aes.c:83-87 | in place: InvSubBytes of the old state |
| Aes.DoAddRoundKey | src/include/aes.h:247-255 | in place: AddRoundKey of the old state |
| Aes.LeftMoves | src/include/aes.h:194-211 | what the rotations and exchanges of `shift_rows` amount to, byte by byte |
| Aes.RightMoves | src/include/aes.h:222-239 | the same for `inv_shift_rows` |
| Aes.ShiftTable | src/include/aes.h:194-239 | those byte moves are the cyclic row shifts of sections 5.1.2 and 5.3.1 |
| Aes.DoShiftRows | src/include/aes.h:194-211 | in place: ShiftRows of the old state |
| Aes.DoInvShiftRows | src/include/aes.h:222-239 | in place: InvShiftRows of the old state |
| Aes.DoMixColumns | src/include/aes.h:128-141 | in place: MixColumns of the old state |
| Aes.DoInvMixColumns | src/include/aes.h:148-168 | in place: InvMixColumns of the old state |
| Aes.DoMixColumnsTableFree | src/include/aes.h:84-97 | the same result as the fast version |
| Aes.DoInvMixColumnsTableFree | src/include/aes.h:108-119 | the same result as the fast version |
| Aes.CopyBlock | src/aes.c:152-155 | sixteen bytes copied |
| Aes.AddKeyOfRound | src/aes.c:165-167 | the key of a round fetched and added |
| Cipher.EncryptIsFips | src/aes.c:148-180 | the cipher as equations on bytes: a key addition, nine rounds of substitution, row shift, equation 5.6 and key, and a last round without 5.6 |
| Aes.BlockEncryption | src/aes.c:148-180 | the output is the FIPS 197 encryption of the input under the expanded key, by those equations |
| Aes.BlockDecryption | src/aes.c:188-220 | the output is its FIPS 197 decryption |
| Aes.RconIsPower | src/aes.c:49-50 | the round constants are the powers of x that section 5.2 asks for |
| Aes.NextContribution | src/aes.c:125-134 | on every fourth word the bytes moved round by one, substituted, and the round constant in the first; else the word before |
| Aes.DoKeyExpansion | src/aes.c:111-140 | fills the schedule with the key expansion of the key, byte by byte that of section 5.2 |
| Ext2Files.BlocksCover | src/ext2.c:932-936 | the number of blocks covers the size with less than a block to spare, and is at most twelve iff the size is at most 12 KiB |
| Ext2Files.BlockOfByte | src/ext2.c:769-805 | a byte of a file is at its offset in the block its inode names, which is on the disk |
| Ext2Files.BlockHolds | src/ext2.c:791-792 | a stretch of one block of a file is that stretch of its data |
| Ext2Files.OthersAreForeign | src/ext2.c:927-957 | a block of one live file belongs to no other |
| Ext2Files.StoreOne | src/ext2.c:611-625 | storing one file in its own blocks and in blocks that were free keeps every other file's bytes, and keeps all files apart |
| Ext2Files.StoreEmpty | src/ext2.c:1150-1154 | a new empty file keeps the same |
| Ext2Files.MarkMore | src/ext2.c:1301-1316 | marking more blocks changes no file |
| Ext2.ReadBlockBytes | src/ext2.c:726-758 | the bytes of one stretch of a block |
| Ext2.WriteBlockBytes | src/ext2.c:726-767 | one stretch of one block changes, nothing else |
| Ext2.ReadDirect | src/ext2.c:769-805 | the block loop returns exactly the slice of the file, cut at its end |
| Ext2.ReadData | src/ext2.c:1258-1282 | for every 32-bit offset and length, although their sum wraps: nothing from the end on, else as many bytes as the file has, byte k being that at offset + k |
| Ext2.WriteStretch | src/ext2.c:807-838 | overwriting a stretch of one block of a file changes exactly those bytes of the file |
| Ext2.WrittenFurther | src/ext2.c:807-838 | one turn of the writing loop extends the written part and touches no other block |
| Ext2.WriteDirect | src/ext2.c:807-838 | the bytes from the offset on are the buffer's, those before and all other blocks are kept |
| Ext2.NextFree | src/ext2.c:1284-1316 | while one is free, the lowest free number is handed out and marked |
| Ext2.InoTrySet | src/ext2.c:1318-1330 | tells whether the inode was marked, and marks it |
| Ext2.GrownFurther | src/ext2.c:945-951 | a further block differs from all the file has and was free |
| Ext2.GrownIsOk | src/ext2.c:927-957 | the grown inode is well formed and keeps to its own blocks and to blocks that were free |
| Ext2.OverwrittenInside | src/ext2.c:611-625 | a write that begins inside a file leaves `old[..pos] + buf` |
| Ext2.WriteOverwrites | src/ext2.c:611-625 | after a write the disk holds the old bytes up to the position and then the buffer |
| Ext2.FileSystem.constructor | src/ext2.c:1382-1409 | any disk whose bitmaps promise only what it has, with the files already stored there live |
| Ext2.FileSystem.AllocInode | src/ext2.c:927-957 | size and block count are set; the blocks the file keeps stay; new ones were free, are marked, on the disk and distinct; exactly as many as needed are taken |
| Ext2.FileSystem.FileRead | src/ext2.c:591-609 | byte k read is the file's byte at the position plus k, as many as asked for or there are, and the position moves on by as many |
| Ext2.FileSystem.FileWrite | src/ext2.c:611-625 | the file is `old[..pos]` and the buffer, ends there, and no other file changes; every block that was marked and is not the file's keeps its bytes; blocks taken are counted exactly |
| Ext2.WriteThenRead | src/ext2.c:591-625 | what was written at a position is what is read there |
| Ext2.FileSystem.GetKey | src/ext2.c:667-672 | the key in the inode |
| Ext2.FileSystem.SetKey | src/ext2.c:674-680 | changes the key of that inode and no file |
| Ext2.FileSystem.Create | src/ext2.c:1150-1154 | a new live file, empty, under an inode that was free; every other file is kept |
| FileCrypt.DecryptEncrypted | src/syscall.c:637-680 | decrypting the first m of n encrypted blocks gives back their plain text |
| FileCrypt.TrimZeros | src/syscall.c:684-687 | trimming undoes zero padding up to the zeros the text itself ends with |
| FileCrypt.PlainTextOfCipherText | src/syscall.c:624-690 | decrypting an encrypted file gives the file less the zeros at the end of its last, unfilled block |
| FileCrypt.RestoredWhen | src/syscall.c:624-690 | it gives back the file if and only if its size is a multiple of 16 or its last byte is not zero |
| FileCrypt.ReadPadded | src/syscall.c:642-644 | the block buffer holds block i of the padded file |
| FileCrypt.EncryptOne | src/syscall.c:641-648 | one more encrypted block behind those before it |
| FileCrypt.EncryptedContent | src/syscall.c:641-648 | the buffer holds the padded file encrypted block by block |
| FileCrypt.WriteBlocks | src/syscall.c:650-653 | the writes leave the file as the buffer, whatever its old size, and no other file changed |
| FileCrypt.CipherTextIsEnciphered | src/syscall.c:624-656 | each block of the result is the encryption of the file's bytes there, with zeros behind its end; one block more than whole ones |
| FileCrypt.SysEncrypt | src/syscall.c:624-656 | the file is that, block by block, the key is in its inode, every other file is untouched |
| FileCrypt.DecryptOne | src/syscall.c:673-677 | one more decrypted block behind those before it |
| FileCrypt.DecryptedContent | src/syscall.c:673-677 | the buffer holds the whole blocks decrypted |
| FileCrypt.TrimmedLength | src/syscall.c:684-687 | the loop finds the length of the last block without the zeros at its end |
| FileCrypt.WritePlain | src/syscall.c:679-688 | the writes leave all blocks but the last and the trimmed last |
| FileCrypt.PlainTextIsDeciphered | src/syscall.c:658-690 | each whole block decrypted, and of the last one what is before the zeros at its end |
| FileCrypt.SysDecrypt | src/syscall.c:658-690 | the file is that under the key in its inode; every other file is untouched |
| FileCrypt.EncryptThenDecrypt | src/syscall.c:624-690 | both calls in a row leave every other file alone, and this one restored iff its size is a multiple of 16 or its last byte is not zero |
| DirectoryBlock.FieldsOf | src/include/ext2.h:163-168 | the fields read through the record pointer are those of the record stored there |
| DirectoryBlock.InOrder | src/ext2.c:1135-1136 | a record ends before any later one begins |
| DirectoryBlock.PutEntry | src/ext2.c:1143-1147 | writing the fields one by one is writing the encoded record, and changes no other byte |
| DirectoryBlock.Replaced | src/ext2.c:1139-1148 | exchanging some records for others that cover the same bytes leaves a block tiled by the new chain |
| DirectoryBlock.SplitKeeps | src/ext2.c:1126-1148 | after an insertion into slack the block is tiled by the chain with the new record, each with room for its padded name |
| DirectoryBlock.OpenEndTaken | src/ext2.c:1120-1124 | a record put over the open end closes the block exactly |
| DirectoryBlock.MergeKeeps | src/ext2.c:1239-1243 | annexing a record keeps the block tiled |
| DirectoryBlock.TakeOverKeeps | src/ext2.c:1221-1230 | copying the next record over the first and annexing it keeps the block tiled |
| DirectoryBlock.RemoveAfterSplit | src/ext2.c:1139-1243 | removing what was inserted into slack gives back the chain, offsets and lengths included |
| DirectoryBlock.WriteSplit | src/ext2.c:1140-1147 | the two edits of an insertion, in place |
| Ext2Dir.NamesAfterInsert | src/ext2.c:1139-1148 | one record more is one name more in the map, and all others as before |
| Ext2Dir.NamesAfterRemove | src/ext2.c:1221-1246 | one record fewer is that name fewer, and all others as before |
| Ext2Dir.ScanStep | src/ext2.c:1013-1019 | what a scan reads at each point of a chain, and that it comes to the next |
| Ext2Dir.AllAt | src/ext2.c:1047-1060 | the record at a position of a block has the index of that many records before it |
| Ext2Dir.AllFrom | src/ext2.c:1047-1060 | every index comes from a position |
| Ext2Dir.Directory.constructor | src/ext2.c:1382-1409 | a directory whose blocks are tiled by chains of records |
| Ext2Dir.Directory.ReadEntry | src/ext2.c:1013-1025 | the record behind the pointer |
| Ext2Dir.Directory.FindByName | src/ext2.c:983-1030 | finds the record with the name and its inode, and nothing iff the map does not have it |
| Ext2Dir.Directory.ReadByName | src/ext2.c:983-1030 | the length of the name iff the map has it, else 0; the dentry has the inode of the map, unless the name overruns the dentry: exactly from 88 bytes on |
| Ext2Dir.Directory.FindByIndex | src/ext2.c:1032-1061 | record number idx of the whole directory, and nothing exactly from the number of records on |
| Ext2Dir.Directory.ReadByIndex | src/ext2.c:1032-1065 | the length of that record's name, and the dentry filled from it, unless the name overruns the dentry: exactly from 88 bytes on; 0 and no change behind the last |
| Ext2Dir.Directory.IndicesAreNames | src/ext2.c:983-1065 | a name is found by name iff some index has it, and by one index only |
| Ext2Dir.Directory.FindRoom | src/ext2.c:1092-1137 | stops at the first record with slack for the padded name, or at an open end; nowhere iff no record has slack and none is open |
| Ext2Dir.Directory.InsertInSlack | src/ext2.c:1130-1148 | the chain is split behind the record, the map gains exactly the name, the directory stays valid |
| DirectoryBlock.OpenEndWrites | src/ext2.c:1120-1147 | the writes at an open end leave the record there, over the rest of the block, and nothing else changed |
| DirectoryBlock.WriteAtOpenEnd | src/ext2.c:1120-1147 | the edits of an insertion at an open end, in place |
| Ext2Dir.Directory.InsertAtOpenEnd | src/ext2.c:1120-1148 | the map gains exactly the name and no block has an open end any more |
| Ext2Dir.FileTypes | src/include/ext2.h:182-193 | the file type of a record by the four high bits of the mode |
| DirectoryBlock.RoomInBytes | src/ext2.c:1130-1134 | how long a record has to be to take another one, in bytes |
| Ext2Dir.Directory.Insert | src/ext2.c:1067-1156 | reports success always; the map gains exactly the name cut to 48 bytes, in a record with that name, inode and type in the first place with room, if and only if some record has slack or an end is open; otherwise nothing changes |
| Ext2Dir.Directory.WriteBlock | src/ext2.c:760-763 | one block changes, and the directory is valid with its new chain and names |
| Ext2Dir.Directory.FindName | src/ext2.c:1179-1252 | the record with the name and the one before it, or nothing iff the map does not have the name |
| Ext2Dir.Directory.TakeOver | src/ext2.c:1221-1230 | removal of the first record of a block: the map loses exactly its name |
| Ext2Dir.Directory.Annex | src/ext2.c:1239-1243 | removal of a later record: the map loses exactly its name |
| Ext2Dir.Directory.Remove | src/ext2.c:1158-1256 | -1 and no change iff the name is not there; otherwise the map loses exactly the name, unless its record is alone in its block: then it stays |
| Ext2Dir.SoleRecordStays | src/ext2.c:1232-1237 | on a directory of one block with one record `Remove` returns 0, the name stays in the map, and lookup by name finds it before and after |
| Ext2Dir.OpenDirectory.Read | src/ext2.c:684-711 | the next name, cut to the buffer, if that is at most 48 bytes; of a longer one the first 48 bytes, then the low byte of the inode's block count; nothing behind the last; overrun exactly from 88 bytes on |
| Ext2Dir.List | src/ext2.c:684-711 | reading from the start shows every record of the directory exactly once, in order, and then ends, unless some name overruns the dentry; if every name fits in its field the listing is the names |
| Ext2Dir.InsertThenRemove | src/ext2.c:1067-1246 | inserting a name and removing it restores every record, with its offset and length, and the names; both report success if and only if there was room |
| Ext2Dir.FullBlock | src/ext2.c:1126-1137 | four records without a byte to spare tile a block |
| Ext2Dir.FullDirectory | src/ext2.c:1091-1156 | a directory without slack: inserting a file reports success, and lookup does not find it |
| Ext2Dir.LongNameDamaged | src/ext2.c:971-981 | a directory with a name of 49 letters: reading it gives another name |
| VfsDentry.StrncpyWhole | src/ext2.c:973 | without a zero byte all bytes of a name are copied |
| VfsDentry.FillVfsDentry | src/ext2.c:971-981 | the writes to the dentry, in place; they leave it exactly when the name has 88 bytes or more |
| VfsDentry.InodeFilled | src/ext2.c:975-980 | the dentry has the record's inode number, however long a name it holds |
| VfsDentry.FieldsFilled | src/ext2.c:971-981 | the dentry field by field: block count, size, inode number, mode and operations where they belong, the name in every byte the code sets from nothing else |
| VfsDentry.NameFilled | src/ext2.c:973-980 | the name stands in its field as far as there is room, and the low byte of the block count behind it |
| VfsDentry.NameRead | src/ext2.c:703-706 | what a reader copies out: the name as far as the field goes, then the block count |
| VfsDentry.NameWholeWhen | src/ext2.c:703-706 | n bytes of a name come back right for every inode if and only if n is at most 48 |
| List.NextPrev | src/include/list.h:14-16 | round a ring `n.next.prev == n` and `n.prev.next == n` |
| List.RingFromAnywhere | src/include/list.h:14-16 | a ring is a ring from each of its nodes on |
| List.InitListHead | src/include/list.h:87-89 | a ring of one |
| List.ListIsEmpty | src/include/list.h:75-77 | true iff the head is alone |
| List.ListIsTail | src/include/list.h:63-65 | true iff the node is the last before the head |
| List.Insert | src/include/list.h:101-106 | the four links of an insertion anywhere in a ring give the ring with one node more |
| List.InsertAfter | src/include/list.h:131-133 | the ring gains the node behind the given one |
| List.InsertBefore | src/include/list.h:144-146 | the list gains the node at its end |
| List.Unlink | src/include/list.h:117-120 | two nodes become neighbours, two links change |
| List.Delete | src/include/list.h:156-160 | the ring loses the node, whose links are poisoned |
| List.Replace | src/include/list.h:171-176 | the ring has the new node where the old one was, also when that was alone |
| List.LinkSeams | src/include/list.h:190-195 | the four links at the seams make one ring of two |
| List.Merge | src/include/list.h:187-197 | the nodes of one list, without its head, stand in order behind the position in the other |
| Signals.LeaveInOrder | src/signal.c:55-76 | over any run of requests and removals, what was taken out followed by what is left is what was there followed by what was requested |
| Signals.SignalState.constructor | src/signal.c:179-186 | nothing pending, default handlers, clear masks |
| Signals.SignalState.Enqueue | src/include/signal.h:90-93 | the object is last in the ring and in the queue |
| Signals.SignalState.RequestSignal | src/signal.c:55-59 | the signal is last in the queue, its object is a new object of the heap and every other object is kept; without memory the signal is lost and queue and heap are as they were |
| Signals.SignalState.DequeueSignal | src/include/signal.h:97-102 | the first object leaves the ring; null iff the queue is empty |
| Signals.SignalState.GetSignal | src/signal.c:67-76 | the oldest signal with its handler and mask; `free` gives exactly its object back to the heap |
| Signals.DequeuedAppend | src/signal.c:55-76 | what two runs take out, one after the other, is what the run of both takes out |
| Signals.SignalState.PerformOne | src/signal.c:55-76 | one request or one removal on the linked queue does to the pending signals what it does to a list of numbers |
| Signals.SignalState.Perform | src/signal.c:55-76 | any run of requests and removals on the linked queue: signals leave in the order of their requests, none lost or repeated, and the heap has one object less for each taken and one more for each requested |
| Signals.SignalState.SaveSigmask | src/signal.c:20-24 | all masks saved |
| Signals.SignalState.RestoreSavedSigmask | src/signal.c:30-34 | all masks as saved |
| Signals.SignalState.SetOtherSigmask | src/signal.c:41-47 | all masks but one set |
| Signals.SignalState.SetHandler | src/syscall.c:343-348 | -1 without a change outside 0 to 4, else the handler is stored; all masks stay clear, and the signal of a bad stack pointer keeps its default |
| Signals.SignalState.Act | src/signal.c:150-172 | what happens to a signal by mask and handler; on every path all masks are clear again |
| Signals.DeliveryTable | src/signal.c:150-172 | by number: what a signal comes to with a handler, and with none for each of the six |
| Signals.SignalState.DoSignal | src/signal.c:150-172 | nothing from kernel mode; otherwise exactly the oldest signal is consumed, and what it comes to depends on its handler alone: masks are clear on every entry, so no signal is lost to one |
| Signals.SignalState.StackFault | src/include/system.h:66-72 | the refused branch of the stack check and the delivery after it: with nothing else pending the process ends, otherwise the oldest signal comes first and the fault stays last |
| SignalFrame.WordsRoundTrip | src/signal.c:124 | the bytes of the saved registers give the registers back |
| SignalFrame.PushUsr | src/include/signal.h:65-67 | the bytes stand right below those pushed before, nothing else changes |
| SignalFrame.PushFrame | src/signal.c:122-126 | the four pushes leave return address, signal number, registers and code in this order below the old stack pointer |
| SignalFrame.HandlerEntered | src/signal.c:128-133 | the handler is next, in user mode, with interrupts, on a stack 84 bytes lower; every other register and flag is as before |
| SignalFrame.FrameIsBuilt | src/signal.c:108-126 | the words on the new stack are the address of the injected code, the signal number and the sixteen registers, the code ends where the old stack pointer was, and no other byte changes |
| SignalFrame.HandleSignal | src/signal.c:102-133 | both, for the registers and the page in place |
| SignalFrame.SysSigreturn | src/syscall.c:356-364 | register i is the word i words above the user stack pointer; then the oldest pending signal, if there is one, is delivered from the restored registers |
| SignalFrame.CodeBytes | src/signal.c:108-114 | the injected bytes, as instructions |
| SignalFrame.AddKeeps | src/signal.c:108-114 | signals and then the first instruction raise the stack pointer by four and keep stack and code |
| SignalFrame.MovKeeps | src/signal.c:108-114 | signals and then the second instruction load 10 and keep stack and code |
| SignalFrame.InjectedKeeps | src/signal.c:108-114 | whatever signals come before its instructions, the injected code, if it gets there, is about to trap with system call 10 and the stack above is as the handler left it |
| SignalFrame.FrameIntact | src/signal.c:122-126 | the parts of the frame are where the return path looks for them |
| SignalFrame.InjectedReturns | src/syscall.c:36-40 | the trap of the injected code restores the saved registers if and only if the stack check of `do_sys` lets the call through; otherwise it is refused with memory untouched |
| SignalFrame.ReturnRestores | src/syscall.c:356-364 | a handler that returns with its stack pointer and has not written from it up, and whose injected code signals interrupt in any way: if that comes to its trap, every interrupted register is restored if and only if `USER_STACK_TOP < esp - 76 < USER_VIRT_BOT - 4` for the interrupted `esp`, and else the call is refused; if not, the way back ends as the injected code did |
| SignalFrame.DeliveryRestores | src/signal.c:102-142 | the same for handlers that are themselves interrupted by signals, to any depth; the stack above the interrupted stack pointer is kept |
| SignalFrame.RunKeeps | src/signal.c:102-142 | a run with deliveries, in handlers and in injected code, that is not refused leaves the stack above its floor alone |
| SignalFrame.SignalsKeep | src/signal.c:102-142 | signals alone leave the registers and the stack as they were, whatever their handlers do below |
| SignalFrame.AfterSignal | src/signal.c:102-142 | a run that gets over a signal goes on from the interrupted registers, and the signal came where it can be returned from |
| SignalFrame.SignalsAreTransparent | src/signal.c:102-142 | user code that depends only on its registers and on what it reads of its stack from the stack pointer up: the same code without the signals, begun in a state that agrees there, ends with the same registers and the same bytes there |
| SignalFrame.PushDepends | src/signal.c:102-142 | a push is such code for a process that reads all of its stack |
| SignalFrame.RefusedWhen | src/include/system.h:66-72 | a run is refused if and only if some signal of it whose injected code comes to its trap, those in handlers and in injected code included, interrupted the process outside the bounds of the stack check |
| SignalFrame.ReachMeans | src/include/system.h:66-72 | the stack a run of signals needs is what the deepest of its system calls needs |
| SignalFrame.SignalsReturn | src/include/system.h:66-72 | signals whose handlers only return, nested in handlers and in injected code in any way, all return if and only if the lowest of their system calls is made above `USER_STACK_TOP` |
| SignalFrame.NestReturns | src/include/system.h:66-72 | n signals that interrupt each other's handlers on entry all return, with every register restored, if and only if the stack has room for n frames above `USER_STACK_TOP` |
| SignalFrame.OneSignal | src/include/system.h:66-72 | a signal whose handler only returns comes back or is refused, exactly by the bounds |
| SignalFrame.ReturnRefused | src/include/system.h:66-72 | a delivery 64 bytes above `USER_STACK_TOP` whose return is refused |
| SignalFrame.RefusedOnTheWay | src/include/system.h:66-72 | a delivery 80 bytes above `USER_STACK_TOP` that returns alone, and is refused when another signal comes before the first injected instruction |
| SignalFrame.SigreturnCall | src/syscall.c:36-40 | the call of the injected code with the queue: refused exactly by the stack check, then it ends the process when nothing else is pending; let through, it restores all registers and the pending signals follow in order |

## Left out

- Device input and output, drivers, the terminal, video mapping on a switch, and random numbers: the disk is an array
  of blocks, the start-up process table is the state after `terminal_init`, a key is a parameter.
- Control transfer in assembly (iret, stack switches, flushing the TLB): represented by its effect on the current pid,
  the saved registers and the page directory.
- The directory entry for the heap's 4 MB, which points to the page table of the model, and the entries of the kernel's
  own pages: they are set once before.
- Uptime accounting, file descriptors and arguments of processes: they take no part in the transitions.
- Heap.KernelHeap.DoAlloc: the failure of `alloc_request_pages` is the number 12 in a variable of addresses, as in the
  code; that no page has that address is what makes the comparison right.
- Kernel.Machine.SysExecute: whether the command parses, the file is found and is executable are parameters; loading
  the image is not modelled. After -1 `do_sys` has no `break` and runs on into `sys_read` (`src/syscall.c:46-51`), whose
  value the caller gets instead; that call is not modelled.
- Kernel.Machine.KillCurrent: the exit code that the parent's execute returns is not modelled.
- Kernel.Machine.DoSched: the chosen waiting process keeps the status DAEMON, as in the code; nothing is claimed about
  it becoming ACTIVE.
- Signals.SignalState.RequestSignal: the word written to address 0 when there is no memory; the result that says so is
  the model's, the code drops the signal silently.
- SignalFrame.SysSigreturn: the user stack holds sixteen words; the page fault of a stack pointer near the end of the
  page is not modelled.
- SignalFrame.SignalsAreTransparent: user code that reads below its stack pointer, its data included, is not covered:
  handlers may write there.
- SignalFrame.HandleSignal: a stack without room for the frame is a page fault in the code and not modelled.
- Ext2.NextFree: requires a free bit. Without one the code compares -12 with -1 and sets a bit 12 places in front of
  the bitmap, in memory that is not part of this model.
- Ext2.FileSystem.AllocInode: requires free blocks for the size, for the same reason, and a size in direct blocks.
- Ext2.ReadData: for files in direct blocks.
- Ext2.FileSystem.FileWrite: requires free blocks and the direct blocks; when the bitmap is full the code compares with
  -1 what comes back as -12, and goes on.
- Ext2.FileSystem.FileRead: for regular files in direct blocks; the refusal of other kinds and indirect blocks, where
  the code computes a wrong remaining size, are not modelled.
- Ext2.FileSystem.Create: requires a free inode; the 512-byte units in which other systems count blocks are not
  modelled.
- Giving blocks and inodes back: `release_blkno` and `release_ino` set the bit they should clear
  (`src/ext2.c:1344-1364`), so nothing is reclaimed and nothing is claimed.
- Ext2Dir.Directory.FindRoom: says that there is no room where the code goes on to append a block.
- Ext2Dir.Directory.Insert: the block the code takes for a name without room, its bytes and its mark in the bitmap, is
  outside the directory and not modelled. Block entries that are 0 in the middle of a directory are not modelled.
- Ext2Dir.Directory.Remove: of names that are not directories, in blocks without an open end; every directory that was
  ever inserted into is like that. The bitmap side of a removal is not modelled.
- Ext2Dir.Directory.ReadByIndex: for blocks without an open end, behind which the code reads on. What a name of 88
  bytes or more overwrites behind the dentry is memory that is not part of this model; the results say that it happens.
- Ext2Dir.Directory.ReadByName: file names without zero bytes, on which `strncmp` compares all of the name; the string
  library that defines it is not part of this model.
- Ext2Dir.Directory.FindByName: file names without zero bytes, for the same reason.
- Ext2Dir.Directory.FindByIndex: for blocks without an open end.
- Ext2Dir.OpenDirectory.Read: the inode table is as it was when the directory was opened.
- FileCrypt.SysEncrypt: the content buffer has room for all padded blocks; the code allocates the file's size.
- FileCrypt.SysDecrypt: for a file with at least one whole block; below that the code's block count wraps below zero.
- Seeking: `SEEK_CUR` uses a position that is never set, and the other two need only additions.
- `parse_path` and `free_dentry` of src/vfs.c, the second file system in src/mod_fs.c, and `bitmap_empty`,
  `bitmap_full` and `bitmap_equal`, which nothing here uses.
