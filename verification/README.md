# Thread-pool slot table and in-memory user file system, in Dafny

This project models two sequential cores of a systems-programming course repository and proves properties of them.

**The thread pool of `4/thread_pool.c`** (modules `ThreadPool` and `TimeSpec`).
- A pool keeps the tasks it owns in one fixed array of `MaxTasks` slots:
  - slots `[0, pendingCount)` hold exactly the tasks no worker has claimed;
  - slots `[pendingCount, pushedCount)` hold running tasks and finished tasks that wait to be reclaimed.
- Every task records its own slot in `index`. Tasks move only by `swap_tasks`.
- Each critical section of the C code is one atomic method:
  - a push;
  - a worker's claim, and its publish of a result;
  - a join, a timed join and a detach;
  - the guards of the two delete functions.

  The methods are on class `Pool` (the array `tasks`, the counters and a ghost set `Running`) and class `Task` (`index`, `pool`, `isRunning`, `isFinished`, `detached`, `result`).
- `Pool.Valid()` is the slot-table invariant. Every method that changes state preserves it and states its new state.
- The slot movements are pure functions on the slot sequence (`Swapped`, `PushSlots`, `ClaimSlots`, `RemoveSlots`). Lemmas show that each one keeps every task and moves only what it should.
- `CountsAddUp` proves `pending + running + finished == pushedCount <= MaxTasks` from the invariant, by counting the slots.
- `timespec_normalise` works by loops, so `Normalise` is a method with those loops, proved equal to the function `Normalised`. The other integer `timespec` helpers compute values and are functions. Each helper returns a normal pair with the exact total number of nanoseconds. Division is C's truncating division, so negative milliseconds come out right.

**The user file system of `3/userfs.c`** (modules `UserFs` and `BlockContent`).
- Class `FileSystem` holds the global state:
  - the file list;
  - the descriptor table, an `array<FileDesc?>` with its count and capacity;
  - the error code.
- A `File` holds its chain of 512-byte blocks, each a `Block` value (memory, occupied count, number), and its reference count. Its ghost `Content()` is the bytes the blocks hold.
- A `FileDesc` holds its file, its cursor (block number, offset) and its flags.
- The byte-level code is written as in C:
  - `write_byte` and `read_byte`;
  - `go_to_next_block`, which appends an empty block when the cursor leaves the last one;
  - the loops of `write_to_file` and `read_from_file`.
- These are proved against the content:
  - a write splices the buffer into the content at the cursor;
  - a read copies `min(size, size of file - cursor)` bytes from the cursor.
- `FileSystem.Valid()` is the invariant every operation keeps:
  - names are unique;
  - every descriptor sits in the slot its id names, is open on a listed file and has its cursor inside that file;
  - the count is the number of taken slots;
  - each file's `refs` is the number of descriptors open on it.
- Open, close, write, read and delete state their error cases and their new state in full.

Constants not defined in the files modelled (they live in `thread_pool.h` and `userfs.h`, which are not part of this model):
- `MaxThreads = 20` and `MaxTasks = 100000`;
- the open flags `Create = 1`, `ReadOnly = 2`, `WriteOnly = 4`, `ReadWrite = 8`.

These are the values of the course's published headers.

## Model

| member | source | states |
|---|---|---|
| TimeSpec.Normalised | 4/thread_pool.c:312-333 | the result is normal (nanoseconds in [0, 10^9)) and has the same total number of nanoseconds as the input |
| TimeSpec.NormalUnique | 4/thread_pool.c:312-333 | two normal pairs with the same total are equal, so the normal form is unique |
| TimeSpec.Normalise | 4/thread_pool.c:312-333 | the carry loop, the borrow loop and the final borrow yield a normal pair with the input's total, namely `Normalised` of the input |
| TimeSpec.Add | 4/thread_pool.c:335-344 | the result is normal and its total is the sum of the two totals |
| TimeSpec.CDivisionMs | 4/thread_pool.c:346-351 | C's truncating `/` and `%` by 1000 recompose the input; the remainder lies in [0, 1000) for a non-negative input and in (-1000, 0] for a negative one |
| TimeSpec.FromMs | 4/thread_pool.c:346-354 | the result is normal and its total is `ms * 10^6` nanoseconds, negative `ms` included |
| TimeSpec.FromTimeVal | 4/thread_pool.c:356-363 | the result is normal and its total is `sec * 10^9 + usec * 1000` |
| TimeSpec.FromMsNegative | 4/thread_pool.c:346-354 | -1500 ms becomes (-2 s, 500000000 ns): the borrow after truncating division |
| ThreadPool.Swapped | 4/thread_pool.c:41-52 | the entries at the two positions are exchanged and the length is kept |
| ThreadPool.SwappedPermutes | 4/thread_pool.c:41-52 | a swap changes no other entry and keeps the multiset of entries |
| ThreadPool.PushSlots | 4/thread_pool.c:196-212 | a push adds one slot and the new task lands in slot `p` |
| ThreadPool.PushSlotsShape | 4/thread_pool.c:196-212 | the slots before `p` are kept, the task that was in slot `p` moves to the end, the slots in between are kept, and exactly the new task is added |
| ThreadPool.ClaimSlots | 4/thread_pool.c:108-111 | slot 0 and the new boundary slot trade tasks |
| ThreadPool.ClaimSlotsShape | 4/thread_pool.c:108-111 | the slots strictly between 0 and the boundary, and those after it, stay put, and no task is lost |
| ThreadPool.RemoveSlots | 4/thread_pool.c:62-63 | a reclaim shrinks the live slots by one |
| ThreadPool.RemoveSlotsShape | 4/thread_pool.c:62-63 | the slots before the reclaimed one are kept, its slot is filled by the last live task, and exactly the reclaimed task leaves |
| ThreadPool.Task.constructor | 4/thread_pool.c:218-233 | a new task has no pool, index -1, and is neither finished, running nor detached |
| ThreadPool.Task.IsFinished | 4/thread_pool.c:245-255 | a finished task is never reported as running |
| ThreadPool.Task.IsRunning | 4/thread_pool.c:257-267 | true only for a task in a pool that is not finished |
| ThreadPool.Task.Delete | 4/thread_pool.c:235-243 | refused with TaskInPool exactly while the task has a pool |
| ThreadPool.Task.Join | 4/thread_pool.c:269-281 | no pool gives TaskNotPushed and leaves the task's index and running flag alone; otherwise the finished task is reclaimed: `pushedCount` drops by one, the slots become `RemoveSlots` of the old ones, the task leaves the pool with index -1, its result is returned, and the pool stays valid |
| ThreadPool.Task.TimedJoin | 4/thread_pool.c:374-409 | no pool gives TaskNotPushed and leaves the task's index and running flag alone; an unfinished task gives Timeout and changes nothing, pool, table and peers included; a finished task is reclaimed as by Join |
| ThreadPool.Task.Detach | 4/thread_pool.c:283-302 | no pool gives TaskNotPushed and leaves the task's index, running flag and detached flag alone; an unfinished task is only marked detached, keeps its slot and running flag, and its pool stays valid, so the worker that publishes it can reclaim it; a finished task is reclaimed as by Join |
| ThreadPool.Pool.CensusOf | 4/thread_pool.c:182-216 | a census of the first `n` slots counts at most `n` tasks |
| ThreadPool.Pool.CensusTotal | 4/thread_pool.c:182-216 | in a consistent table every live slot is counted exactly once |
| ThreadPool.Pool.CensusPending | 4/thread_pool.c:108-114 | exactly the tasks in `[0, pendingCount)` are unclaimed |
| ThreadPool.Pool.CensusRunning | 4/thread_pool.c:108-114 | the running tasks counted in a prefix are the claimed, unfinished tasks whose slot lies in it |
| ThreadPool.Pool.CountsAddUp | 4/thread_pool.c:182-216 | the table holds `pendingCount` pending and `runningCount` running tasks, and pending + running + finished-unreclaimed == `pushedCount` <= MaxTasks |
| ThreadPool.Pool.StatusBySlot | 4/thread_pool.c:257-267 | a live task is in the pending zone exactly when unclaimed, is running exactly when counted as running, and is outside the pending zone once finished |
| ThreadPool.Pool.constructor | 4/thread_pool.c:126-142 | an empty, valid pool: no workers, every counter 0 |
| ThreadPool.Pool.ThreadCount | 4/thread_pool.c:145-152 | the worker count never exceeds the ceiling, which never exceeds MaxThreads |
| ThreadPool.Pool.Swap | 4/thread_pool.c:41-52 | the two slots and the two back-pointers are exchanged; every other slot is kept; a self-swap is the identity; the live slots become `Swapped` of the old ones; the placement of the other slots is kept |
| ThreadPool.Pool.Enqueue | 4/thread_pool.c:192-203 | the task is marked unfinished and unclaimed, given the pool, and appended; `pushedCount` and `pendingCount` rise by one; the worker count follows the spawn rule |
| ThreadPool.Pool.Spawn | 4/thread_pool.c:200-203 | one worker is added exactly when every worker is busy and the ceiling allows one more; the count never exceeds the ceiling |
| ThreadPool.Pool.Push | 4/thread_pool.c:182-216 | a full table gives TooManyTasks and changes neither pool nor task; otherwise the counts rise by one, the task sits in slot `old pendingCount`, the slots become `PushSlots` of the old ones, the spawn rule holds, and the invariant is kept |
| ThreadPool.Pool.SwapIntoZone | 4/thread_pool.c:212 | the appended task trades places with the first task past the old pending zone, which restores the invariant |
| ThreadPool.Pool.Claim | 4/thread_pool.c:97-115 | no pending task means no change; otherwise the task from slot 0 becomes running on the new zone boundary; `pendingCount` drops and `runningCount` rises by one; the slots become `ClaimSlots` of the old ones; the invariant is kept |
| ThreadPool.Pool.Dequeue | 4/thread_pool.c:108-111 | the pending zone shrinks and its first task moves onto the new boundary |
| ThreadPool.Pool.MarkRunning | 4/thread_pool.c:113-114 | the claimed task is marked and counted as running, and the invariant is restored |
| ThreadPool.Pool.Reclaim | 4/thread_pool.c:54-68 | a finished task swaps with the last live slot and leaves the table: `pushedCount` drops by one, the slots become `RemoveSlots` of the old ones, and the task gets no pool, index -1 and not running |
| ThreadPool.Pool.Release | 4/thread_pool.c:62-67 | the table shrinks past the task in the last live slot, which leaves the pool |
| ThreadPool.Pool.Publish | 4/thread_pool.c:74-85 | the result is stored, the task is finished and no longer counted as running; a non-detached task stays in its slot; a detached one is reclaimed |
| ThreadPool.Pool.MarkFinished | 4/thread_pool.c:76-79 | the result is stored and the task leaves the running count as finished, keeping the invariant |
| ThreadPool.Pool.Delete | 4/thread_pool.c:154-161 | refused with HasTasks exactly while tasks are pending or running; on success every task left in the table has finished |
| ThreadPool.NewPool | 4/thread_pool.c:121-143 | a ceiling outside [1, MaxThreads] gives InvalidArgument; otherwise a fresh valid pool, with a fresh slot array of its own, and every counter 0 |
| BlockContent.Put | 3/userfs.c:266-274 | one byte is overwritten, or appended at the end; every other byte is kept |
| BlockContent.ConcatFull | 3/userfs.c:319 | the blocks before the last are full, so k of them hold k * 512 bytes |
| BlockContent.ConcatLength | 3/userfs.c:319 | the file size is (number of blocks - 1) * 512 + what the last block holds |
| BlockContent.ConcatAt | 3/userfs.c:259-264 | byte o of block k is byte k * 512 + o of the content |
| BlockContent.PutLeft | 3/userfs.c:266-274 | putting a byte inside the left part of a concatenation |
| BlockContent.PutRight | 3/userfs.c:266-274 | putting a byte inside or just past the right part of a concatenation |
| BlockContent.ConcatPut | 3/userfs.c:266-274 | writing at offset o of block k writes position k * 512 + o of the content |
| BlockContent.PutShape | 3/userfs.c:266-274 | a write inside a block, or just past the end of the last one, keeps every block but the last full |
| BlockContent.ConcatGrow | 3/userfs.c:282-291 | appending an empty block keeps the content |
| BlockContent.SpliceStep | 3/userfs.c:307-310 | writing one more byte extends the splice by that byte |
| BlockContent.MemoryPut | 3/userfs.c:266-274 | the in-use prefix of a block after `write_byte` is the old one with the byte put at the offset |
| BlockContent.SpliceContents | 3/userfs.c:297-313 | a write keeps the bytes before the cursor, holds the buffer from the cursor on, and keeps the bytes past its end |
| BlockContent.SpliceReadBack | 3/userfs.c:297-313 | the bytes just written can be read back from where they were written |
| UserFs.EmptyBlock | 3/userfs.c:114-120 | a new block has 512 bytes of memory, nothing in use, and the given number |
| UserFs.StorePut | 3/userfs.c:266-274 | `write_byte` on the blocks, including its occupied-count rule, keeps the blocks holding the content, with the byte put at the cursor position |
| UserFs.StoreGrow | 3/userfs.c:282-291 | appending an empty block after a full last block keeps the blocks holding the same content |
| UserFs.CopyStep | 3/userfs.c:307-310 | writing byte i of the buffer after the first i extends the splice by exactly that byte |
| UserFs.File.constructor | 3/userfs.c:106-121 | a new file has no references, one empty block numbered 0, and empty content |
| UserFs.File.Size | 3/userfs.c:319 | with the last block numbered after the others and at most full, the size lies past every block but the last and within the last |
| UserFs.File.SizeIsLength | 3/userfs.c:319 | the size the last block tells is the length of the content |
| UserFs.FileDesc.constructor | 3/userfs.c:243-249 | a new descriptor has its cursor at block 0, offset 0 |
| UserFs.FileDesc.Position | 3/userfs.c:300 | the cursor position `current_size` lies inside the cursor's block whenever the offset is within a block |
| UserFs.FileDesc.ReadByte | 3/userfs.c:259-264 | the byte under the cursor is the content's byte at the cursor position |
| UserFs.FileDesc.WriteByte | 3/userfs.c:266-274 | the content becomes `Put` of the old content at the cursor; the size grows by one exactly when the cursor was at the end of the file |
| UserFs.FileDesc.GoToNextBlock | 3/userfs.c:276-295 | the cursor advances by one byte and the content is kept; a block is appended exactly when the offset reaches 512 in the last block, and that block is empty and numbered after it |
| UserFs.FileDesc.WriteAndAdvance | 3/userfs.c:307-310 | one loop turn puts the byte at the old cursor and advances the cursor by one |
| UserFs.FileDesc.WriteToFile | 3/userfs.c:297-313 | -1 with content and cursor unchanged exactly when cursor + size > MaxFileSize; otherwise returns the size, the content becomes the old content spliced with the buffer at the cursor, and the cursor advances by the size |
| UserFs.FileDesc.CopyIn | 3/userfs.c:307-310 | the loop splices the whole buffer in at the cursor and advances the cursor past it |
| UserFs.FileDesc.ReadAndAdvance | 3/userfs.c:323-326 | one loop turn returns the byte at the old cursor and advances the cursor by one, keeping the content |
| UserFs.FileDesc.ReadFromFile | 3/userfs.c:315-328 | returns min(size, file size - cursor); that many bytes from the cursor land at the start of the buffer; the rest of the buffer is kept; the cursor advances by the count and the content is kept |
| UserFs.FileDesc.CopyOut | 3/userfs.c:323-326 | the loop copies the next n bytes of the content into the buffer and advances the cursor by n |
| UserFs.Pad | 3/userfs.c:190-198 | the grown table keeps the old slots and adds empty ones |
| UserFs.FileSystem.SlotsPlace | 3/userfs.c:200-204 | a descriptor placed in an empty slot with that slot as its id keeps every descriptor in its slot |
| UserFs.FileSystem.constructor | 3/userfs.c:52-73 | the initial state: no files, a fresh empty table of capacity 0, no error |
| UserFs.FileSystem.GetFile | 3/userfs.c:81-94 | the walk from the head returns the first file with the name, or null when there is none |
| UserFs.FileSystem.DescriptorAt | 3/userfs.c:96-104 | null exactly for an id outside `[0, capacity)` or an empty slot; otherwise the descriptor with that id, open on a listed file |
| UserFs.FileSystem.CreateFile | 3/userfs.c:106-143 | a new file with one empty block numbered 0 and no references is appended to the end of the list and is then found by its name; the table is unchanged |
| UserFs.FileSystem.Created | 3/userfs.c:125-140 | appending a fresh, unreferenced file keeps the invariant |
| UserFs.FileSystem.Open | 3/userfs.c:228-257 | a missing file without Create gives NoFile and -1 and changes nothing. Otherwise the named file is created at the end of the list if missing (one empty block numbered 0), and gains one reference and a new descriptor with its cursor at 0. The descriptor takes the lowest free slot of the table, grown as `add_descriptor` grows it. The count rises by one, the slot number is returned, and the invariant is kept |
| UserFs.FileSystem.OpenOn | 3/userfs.c:233-256 | the same as Open once `get_file` has answered |
| UserFs.FileSystem.AttachValid | 3/userfs.c:243-256 | a new descriptor on a listed file is counted in its refs and placed in the lowest free slot, keeping the invariant |
| UserFs.FileSystem.Attached | 3/userfs.c:243-256 | a descriptor placed by `add_descriptor` and counted in its file's refs keeps the invariant |
| UserFs.FileSystem.Attach | 3/userfs.c:243-256 | the new descriptor is fresh, has the flags and a cursor at 0, gets its slot as id, and adds one to its file's refs |
| UserFs.FileSystem.Placed | 3/userfs.c:200-204 | placing the descriptor and counting it in its file's refs restores the invariant |
| UserFs.FileSystem.RefsPlace | 3/userfs.c:251-253 | each file's refs is again the number of descriptors open on it |
| UserFs.FileSystem.RemoveDescriptor | 3/userfs.c:211-226 | an id naming no open descriptor gives -1 and no change; otherwise it returns 0, the slot is emptied, the count drops by one, exactly the descriptor's file loses a reference, and the invariant is kept |
| UserFs.FileSystem.Detached | 3/userfs.c:220-224 | emptying a slot and dropping its file's reference keeps the invariant |
| UserFs.FileSystem.DeleteFile | 3/userfs.c:145-185 | -1 and no change for no file or a file with references; otherwise the file leaves the list and the others keep their order |
| UserFs.FileSystem.Write | 3/userfs.c:330-345 | an unknown id gives NoFile and -1; a ReadOnly descriptor gives NoPermission and -1, with descriptor and file unchanged; otherwise the result and effect of `write_to_file`, with NoMem when it refuses and the descriptor and file (blocks included) unchanged |
| UserFs.FileSystem.WriteThrough | 3/userfs.c:344 | `write_to_file` through an open descriptor keeps the invariant |
| UserFs.FileSystem.CursorMoved | 3/userfs.c:297-328 | moving one cursor while its file only grows keeps every descriptor valid and the invariant |
| UserFs.FileSystem.Read | 3/userfs.c:347-362 | an unknown id gives NoFile and -1; a WriteOnly descriptor gives NoPermission and -1, with nothing changed; otherwise min(size, file size - cursor) bytes from the cursor are copied, the cursor advances by that many, and the content is kept |
| UserFs.FileSystem.SetError | 3/userfs.c:17 | the error code is set and the invariant is kept |
| UserFs.FileSystem.ReadThrough | 3/userfs.c:361 | `read_from_file` through an open descriptor keeps the invariant |
| UserFs.FileSystem.Close | 3/userfs.c:364-368 | the same as `remove_descriptor`, and the file list is unchanged |
| UserFs.FileSystem.Delete | 3/userfs.c:370-383 | no file of that name gives NoFile and -1; otherwise 0, with the file removed when it has no references and everything kept when it has some |
| UserFs.FileSystem.DeleteFound | 3/userfs.c:375-382 | the same as Delete once `get_file` has answered |
| UserFs.FileSystem.AddDescriptor | 3/userfs.c:187-209 | capacity 10 on first use, doubled when full; the descriptor goes into the lowest empty slot, whose number is returned, and the count rises by one |
| UserFs.FileSystem.MakeRoom | 3/userfs.c:190-198 | after the capacity checks the table has an empty slot, the old slots are kept and the new ones are empty |
| UserFs.FileSystem.TakeFreeSlot | 3/userfs.c:200-206 | the scan stores the descriptor in the lowest empty slot, leaves every other slot alone, and adds one to the count |
| UserFs.FindFile | 3/userfs.c:81-94 | null exactly when no listed file has the name; otherwise the first listed file with it |
| UserFs.UniqueAppend | 3/userfs.c:125-140 | appending a file with a new name keeps names unique, and the file is then found by its name |
| UserFs.UniqueRemove | 3/userfs.c:156-172 | unlinking a file keeps names unique and every other file listed |
| UserFs.Used | 3/userfs.c:72 | the number of taken slots is at most the table size |
| UserFs.CountOn | 3/userfs.c:42 | the descriptors open on a file are at most the taken slots |
| UserFs.UsedSet | 3/userfs.c:200-224 | changing one slot changes the taken count by what was taken and what is put |
| UserFs.CountOnSet | 3/userfs.c:220-223 | changing one slot changes a file's descriptor count by what was and what is open on it there |
| UserFs.UsedNulls | 3/userfs.c:195-198 | empty slots added by growing the table are not taken |
| UserFs.CountOnNulls | 3/userfs.c:195-198 | empty slots added by growing the table open nothing on any file |
| UserFs.CountOnPlace | 3/userfs.c:200-204 | placing a descriptor in a grown table adds one to its own file's count and nothing to the others |
| UserFs.FreeSlot | 3/userfs.c:195-206 | a table with fewer taken slots than its size has an empty slot, so the scan finds one |
| UserFs.NoneOn | 3/userfs.c:152 | a file has no descriptors open on it exactly when no taken slot names it |

## Left out

- Threads, the pool mutex, condition variables, `pthread_create`/`pthread_join` and the worker wait/shutdown handshake on `updating` are not modelled. Each locked section is one atomic method, and a worker with nothing pending is a claim that changes nothing.
- Push's wake-up of an idle worker when `pending_tasks_count == 1` (4/thread_pool.c:204-211) is not modelled: it clears `updating` and signals the condition variable, and both belong to the worker handshake left out above.
- The user function (4/thread_pool.c:72) is not executed. Its result is a parameter of `Publish`.
- The wall clock, the `double` timeout and the blocking waits are not modelled (4/thread_pool.c:366-372, 385-396).
  - `Task.Join` is the step after the wait, so it requires a finished task.
  - `Task.TimedJoin` treats a task still unfinished at that step as timed out.
- `Pool.Reclaim`: C decrements `pushed_tasks_count` before the swap. The model decrements it after. Both happen under the lock, so no caller can tell the difference.
- `Pool.Push`: requires a task that is in no pool. The C code does not check this, and pushing a queued task twice would corrupt the table.
- Thread-pool construction takes only the worker ceiling. The task capacity is the constant `MaxTasks`, as in the code.
- Memory management is not modelled: `malloc`, `realloc`, `free`, destroying a detached task, and the free loops of `delete_file`.
- `UserFs.FileSystem.MakeRoom`: the slots that `malloc`/`realloc` add to the descriptor table (3/userfs.c:192, 197) are left uninitialised by the C code. The model makes them empty, which is what the slot scan evidently expects.
- `UserFs.FileSystem.AddDescriptor`: never returns -1. Its scan always finds an empty slot once the table has room (`FreeSlot`), so the C code's final `return -1` cannot be reached.
- The linked lists are modelled as sequences: the file list, and each file's block chain with its `prev`/`next`/`last_block` pointers. So the model does not capture:
  - the pointer splicing of `delete_file`'s four unlink cases, or its head update;
  - `create_file`'s walk to the tail;
  - a cursor held as a block pointer. The model holds the cursor as a block number, which the C blocks also carry in `index`.
- C integer widths are not modelled. Sizes, positions and counts are unbounded, so the `size_t` to `int` conversion of `ufs_write`/`ufs_read` sizes and possible `int` overflow of `current_size + size` are not captured. Read's `size` is a `nat`.
- `UserFs.FileSystem.Read`: requires `size <= buf.Length`: `size` is read as the buffer's size. C writes past the buffer only when `size` exceeds it and more than `buf.Length` bytes remain after the cursor, so the model excludes some calls that C handles safely. It also requires that `buf` is not the descriptor table, which Dafny cannot rule out from the types alone.
- `UserFs.FileSystem.Write`: in C, `write_to_file` itself sets `UFS_ERR_NO_MEM` before returning -1. The model sets the same code in `Write` once `write_to_file` has returned -1, with the same observable result.
- `ufs_destroy` (3/userfs.c:386-402) and `ufs_errno` are not modelled. The first is teardown only; the second just reads `errorCode`.
- `2/solution.c` is not part of this model. It is a shell driver built on `fork`, `exec`, `pipe` and `wait`.
